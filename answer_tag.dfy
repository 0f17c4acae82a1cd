/**
 * The answer wire format `<answer>VALUE</answer>` shared by the gold answer and the
 * model's reply.
 *
 * Reading is Python's `re.search(r"<answer>\s*(.*?)\s*</answer>", s, re.IGNORECASE)`
 * followed by `.group(1).strip()`, or `s.strip()` when nothing matches. The module
 * states the regular expression's meaning declaratively (`MatchAt`, with the
 * backtracking order of Python's engine in `Leftmost`), gives a scanner that computes
 * it (`Search`), proves the two agree, and proves that formatting then reading
 * returns the value (`ExtractWrapped`, `GoldRoundTrip`).
 */
module AnswerTag {
  import opened Wrappers
  import opened Text

  const Open: string := "<answer>"
  const Close: string := "</answer>"

  /** Equal up to ASCII case, character by character, as `re.IGNORECASE` compares. */
  predicate CiEqual(a: string, b: string) {
    |a| == |b| && (a == [] || (ToLower(a[0]) == ToLower(b[0]) && CiEqual(a[1..], b[1..])))
  }

  /** Comparing lower-cased text, as the reward does, is the same relation as the
      regular expression's case-insensitive comparison. */
  lemma {:induction false} LowerEqIffCiEqual(a: string, b: string)
    ensures Lower(a) == Lower(b) <==> CiEqual(a, b)
    decreases |a|
  {
    if |a| == |b| && a != [] {
      LowerEqIffCiEqual(a[1..], b[1..]);
      LowerSplits(a, b);
    }
  }

  /** Two lower-cased texts of one length agree exactly when their first characters and
      their rests do. */
  lemma LowerSplits(a: string, b: string)
    requires |a| == |b| > 0
    ensures Lower(a) == Lower(b) <==>
              ToLower(a[0]) == ToLower(b[0]) && Lower(a[1..]) == Lower(b[1..])
  {
    if ToLower(a[0]) == ToLower(b[0]) && Lower(a[1..]) == Lower(b[1..]) {
      forall k | 0 <= k < |a|
        ensures Lower(a)[k] == Lower(b)[k]
      {
        if k > 0 {
          assert Lower(a)[k] == Lower(a[1..])[k - 1];
          assert Lower(b)[k] == Lower(b[1..])[k - 1];
        }
      }
    }
    if Lower(a) == Lower(b) {
      assert Lower(a)[0] == Lower(b)[0];
      forall k | 0 <= k < |a| - 1
        ensures Lower(a[1..])[k] == Lower(b[1..])[k]
      {
        assert Lower(a)[k + 1] == Lower(b)[k + 1];
      }
    }
  }

  /** `pat` occurs at position `i` of `s`, ignoring ASCII case. */
  predicate CiPrefixAt(s: string, i: int, pat: string) {
    0 <= i && i + |pat| <= |s| && CiEqual(s[i..i + |pat|], pat)
  }

  /** Every character of `s[a..b]` is whitespace (what `\s*` may consume). */
  predicate Spaces(s: string, a: int, b: int) {
    0 <= a <= b <= |s| && forall k | a <= k < b :: IsSpace(s[k])
  }

  /** No character of `s[a..b]` is a newline (what `.` may consume without DOTALL). */
  predicate SingleLine(s: string, a: int, b: int) {
    0 <= a <= b <= |s| && forall k | a <= k < b :: s[k] != '\n'
  }

  // ---- the regular expression, declaratively --------------------------------

  /** `\s*</answer>` matches at position `q`, for some amount of whitespace. */
  ghost predicate CloseAfter(s: string, q: int) {
    exists j :: Spaces(s, q, j) && CiPrefixAt(s, j, Close)
  }

  /** The pattern matches starting at `i`, with the first `\s*` taking `k` characters
      and the group `(.*?)` taking `n`. */
  ghost predicate MatchAt(s: string, i: int, k: int, n: int) {
    CiPrefixAt(s, i, Open) && 0 <= k && 0 <= n
    && Spaces(s, i + |Open|, i + |Open| + k)
    && SingleLine(s, i + |Open| + k, i + |Open| + k + n)
    && CloseAfter(s, i + |Open| + k + n)
  }

  /** The pattern does not match at start `i` at all. */
  ghost predicate NoMatchAt(s: string, i: int) {
    forall k, n :: !MatchAt(s, i, k, n)
  }

  /** The match that `re.search` reports: the leftmost start; at that start the first
      alternative in backtracking order, which takes the most whitespace for the
      greedy `\s*` and then the fewest characters for the lazy group. */
  ghost predicate Leftmost(s: string, i: int, k: int, n: int) {
    MatchAt(s, i, k, n)
    && (forall i' | 0 <= i' < i :: NoMatchAt(s, i'))
    && (forall k', n' | k < k' :: !MatchAt(s, i, k', n'))
    && (forall n' | 0 <= n' < n :: !MatchAt(s, i, k, n'))
  }

  /** The text captured by group 1 of a match. */
  function Group(s: string, i: int, k: int, n: int): string
    requires 0 <= i && 0 <= k && 0 <= n && i + |Open| + k + n <= |s|
  {
    s[i + |Open| + k .. i + |Open| + k + n]
  }

  // ---- the scanner -----------------------------------------------------------

  /** A match found by the scanner: its start, the whitespace skipped, the group length. */
  datatype Hit = Hit(start: nat, skip: nat, len: nat)

  /** Length of the run of whitespace starting at `q` (see `SpaceRunIsMaximal`). */
  function SpaceRun(s: string, q: nat): (r: nat)
    requires q <= |s|
    ensures q + r <= |s|
    decreases |s| - q
  {
    if q == |s| || !IsSpace(s[q]) then 0 else 1 + SpaceRun(s, q + 1)
  }

  /** `SpaceRun` measures the whole run: all of it is whitespace and the character after
      it, if any, is not. */
  lemma {:induction false} SpaceRunIsMaximal(s: string, q: nat)
    requires q <= |s|
    ensures Spaces(s, q, q + SpaceRun(s, q))
    ensures q + SpaceRun(s, q) == |s| || !IsSpace(s[q + SpaceRun(s, q)])
    decreases |s| - q
  {
    if q < |s| && IsSpace(s[q]) {
      SpaceRunIsMaximal(s, q + 1);
    }
  }

  /** The greedy check for `\s*</answer>` at `q`: skip all whitespace, then look for the tag. */
  predicate ClosesAt(s: string, q: nat)
    requires q <= |s|
  {
    CiPrefixAt(s, q + SpaceRun(s, q), Close)
  }

  /** The lazy group starting at `b`: try group lengths from `n` up, as long as the group
      stays on one line, until `\s*</answer>` matches after it. */
  function MatchLen(s: string, b: nat, n: nat): (r: Option<nat>)
    requires b + n <= |s|
    ensures r.Some? ==> n <= r.value && b + r.value <= |s|
    decreases |s| - b - n
  {
    var q := b + n;
    if ClosesAt(s, q) then Some(n)
    else if q == |s| || s[q] == '\n' then None
    else MatchLen(s, b, n + 1)
  }

  /** When `MatchLen` finds a length, it is the shortest single-line group, from `n` on,
      after which the closing part matches. */
  lemma {:induction false} MatchLenFound(s: string, b: nat, n: nat, m: nat)
    requires b + n <= |s| && SingleLine(s, b, b + n) && MatchLen(s, b, n) == Some(m)
    ensures SingleLine(s, b, b + m) && ClosesAt(s, b + m)
    ensures forall q | b + n <= q < b + m :: !ClosesAt(s, q)
    decreases |s| - b - n
  {
    var q := b + n;
    if !ClosesAt(s, q) {
      assert MatchLen(s, b, n + 1) == Some(m);
      assert SingleLine(s, b, q + 1);
      MatchLenFound(s, b, n + 1, m);
    }
  }

  /** When `MatchLen` finds nothing, no single-line group from `n` on is followed by the
      closing part. */
  lemma {:induction false} MatchLenNotFound(s: string, b: nat, n: nat)
    requires b + n <= |s| && SingleLine(s, b, b + n) && MatchLen(s, b, n).None?
    ensures forall q | b + n <= q && SingleLine(s, b, q) :: !ClosesAt(s, q)
    decreases |s| - b - n
  {
    var q := b + n;
    if q < |s| && s[q] == '\n' {
      assert forall q' | q < q' <= |s| :: !SingleLine(s, b, q');
    } else if q < |s| {
      assert SingleLine(s, b, q + 1);
      MatchLenNotFound(s, b, n + 1);
    }
  }

  /** Attempt the pattern at start `i` only. */
  function MatchHere(s: string, i: nat): (r: Option<Hit>)
    requires i <= |s|
    ensures r.Some? ==> r.value.start == i && i + |Open| + r.value.skip + r.value.len <= |s|
  {
    if CiPrefixAt(s, i, Open) then
      var p := i + |Open|;
      var k := SpaceRun(s, p);
      match MatchLen(s, p + k, 0)
      case Some(n) => Some(Hit(i, k, n))
      case None => None
    else None
  }

  /** Try every start from `i` on, the leftmost first. */
  function FindFrom(s: string, i: nat): (r: Option<Hit>)
    requires i <= |s|
    ensures r.Some? ==> i <= r.value.start && r.value.start + |Open| + r.value.skip + r.value.len <= |s|
    decreases |s| - i
  {
    var here := MatchHere(s, i);
    if here.Some? then here
    else if i == |s| then None
    else FindFrom(s, i + 1)
  }

  /** `re.search` of the answer pattern. */
  function Search(s: string): (r: Option<Hit>)
    ensures r.Some? ==> r.value.start + |Open| + r.value.skip + r.value.len <= |s|
  {
    FindFrom(s, 0)
  }

  /** The answer carried by `s`: the trimmed group of the first match, or the trimmed
      text when there is none. Never fails. */
  function Extract(s: string): (r: string)
    ensures |r| <= |s|
    ensures Trimmed(r)
  {
    match Search(s)
    case Some(h) => Strip(Group(s, h.start, h.skip, h.len))
    case None => Strip(s)
  }

  /** Format a value in the wire format. */
  function Wrap(v: string): string {
    Open + v + Close
  }

  /** The gold answer of a dataset record: `f"<answer>{count}</answer>"`. */
  function Gold(count: int): string {
    Wrap(IntToDecimal(count))
  }

  // ---- the scanner computes the regular expression ----------------------------

  /** Both tags start with `<`, which ASCII case folding leaves alone. */
  lemma TagStartsWithLt(s: string, j: int, pat: string)
    requires |pat| > 0 && pat[0] == '<'
    ensures CiPrefixAt(s, j, pat) ==> s[j] == '<'
  {
    if CiPrefixAt(s, j, pat) {
      assert ToLower(s[j..j + |pat|][0]) == ToLower(pat[0]);
    }
  }

  /** Every text is equal to itself up to case. */
  lemma {:induction false} CiEqualRefl(a: string)
    ensures CiEqual(a, a)
  {
    if a != [] {
      CiEqualRefl(a[1..]);
    }
  }

  /** The whitespace run from `q` ends no later than any non-whitespace character. */
  lemma SpaceRunStops(s: string, q: nat, m: nat)
    requires q <= m < |s| && !IsSpace(s[m])
    ensures q + SpaceRun(s, q) <= m
  {
    SpaceRunIsMaximal(s, q);
  }

  /** A whitespace character in front of `q` does not change whether `\s*</answer>` matches. */
  lemma ClosesAtSkipsSpace(s: string, q: nat)
    requires q < |s|
    ensures IsSpace(s[q]) ==> ClosesAt(s, q) == ClosesAt(s, q + 1)
  {
  }

  /** The greedy check decides `\s*</answer>`: the tag cannot start inside whitespace,
      and whitespace cannot be skipped past a character that is not whitespace. */
  lemma CloseAfterIff(s: string, q: nat)
    requires q <= |s|
    ensures CloseAfter(s, q) <==> ClosesAt(s, q)
  {
    SpaceRunIsMaximal(s, q);
    var e := q + SpaceRun(s, q);
    if ClosesAt(s, q) {
      assert Spaces(s, q, e) && CiPrefixAt(s, e, Close);
    }
    forall j | Spaces(s, q, j) && CiPrefixAt(s, j, Close)
      ensures j == e
    {
      TagStartsWithLt(s, j, Close);
      assert !IsSpace(s[j]);
    }
  }

  /** However much whitespace a match lets the first `\s*` take, there is also a match
      in which it takes the whole run, so that run is the greedy choice. */
  lemma GreedySkip(s: string, i: int, k: int, n: int) returns (m: nat)
    requires 0 <= i && i + |Open| <= |s|
    ensures var w := SpaceRun(s, i + |Open|);
            MatchAt(s, i, k, n) ==> k <= w && MatchAt(s, i, w, m)
  {
    var p := i + |Open|;
    SpaceRunIsMaximal(s, p);
    var w := SpaceRun(s, p);
    m := 0;
    if MatchAt(s, i, k, n) {
      assert k <= w;
      var e := p + k + n;
      if e >= p + w {
        m := e - (p + w);
        assert SingleLine(s, p + w, p + w + m);
      } else {
        var j :| Spaces(s, e, j) && CiPrefixAt(s, j, Close);
        TagStartsWithLt(s, j, Close);
        assert !IsSpace(s[j]);
        assert p + w <= j;
        assert Spaces(s, p + w, j);
        assert CloseAfter(s, p + w);
      }
    }
  }

  /** The pieces of a match, with the closing part checked greedily. */
  lemma MatchAtIntro(s: string, i: int, k: nat, n: nat)
    requires CiPrefixAt(s, i, Open) && i + |Open| + k + n <= |s|
    requires Spaces(s, i + |Open|, i + |Open| + k)
    requires SingleLine(s, i + |Open| + k, i + |Open| + k + n)
    requires ClosesAt(s, i + |Open| + k + n)
    ensures MatchAt(s, i, k, n)
  {
    CloseAfterIff(s, i + |Open| + k + n);
  }

  /** The attempt the scanner makes at `i`, when it succeeds, is a match. */
  lemma ScannedIsMatch(s: string, i: nat, n: nat)
    requires CiPrefixAt(s, i, Open)
    requires MatchLen(s, i + |Open| + SpaceRun(s, i + |Open|), 0) == Some(n)
    ensures MatchAt(s, i, SpaceRun(s, i + |Open|), n)
  {
    var p := i + |Open|;
    var k := SpaceRun(s, p);
    SpaceRunIsMaximal(s, p);
    var b := p + k;
    MatchLenFound(s, b, 0, n);
    MatchAtIntro(s, i, k, n);
  }

  /** No match lets the first `\s*` take more than the whole whitespace run. */
  lemma NoLongerSkip(s: string, i: nat, k: int, n: int)
    requires i + |Open| <= |s|
    ensures SpaceRun(s, i + |Open|) < k ==> !MatchAt(s, i, k, n)
  {
    SpaceRunIsMaximal(s, i + |Open|);
  }

  /** With the whole run skipped, no group shorter than the scanner's is followed by the
      closing part. */
  lemma NoShorterGroup(s: string, i: nat, n: nat, n': int)
    requires i + |Open| <= |s|
    requires MatchLen(s, i + |Open| + SpaceRun(s, i + |Open|), 0) == Some(n)
    requires 0 <= n' < n
    ensures !MatchAt(s, i, SpaceRun(s, i + |Open|), n')
  {
    var b := i + |Open| + SpaceRun(s, i + |Open|);
    MatchLenFound(s, b, 0, n);
    CloseAfterIff(s, b + n');
  }

  /** When `MatchHere` succeeds it has found the first alternative at `i`. */
  lemma MatchHereFound(s: string, i: nat)
    requires i <= |s| && MatchHere(s, i).Some?
    ensures var h := MatchHere(s, i).value;
            MatchAt(s, i, h.skip, h.len)
            && (forall k', n' | h.skip < k' :: !MatchAt(s, i, k', n'))
            && (forall n' | 0 <= n' < h.len :: !MatchAt(s, i, h.skip, n'))
  {
    var h := MatchHere(s, i).value;
    ScannedIsMatch(s, i, h.len);
    forall k', n' | h.skip < k'
      ensures !MatchAt(s, i, k', n')
    {
      NoLongerSkip(s, i, k', n');
    }
    forall n' | 0 <= n' < h.len
      ensures !MatchAt(s, i, h.skip, n')
    {
      NoShorterGroup(s, i, h.len, n');
    }
  }

  /** When `MatchHere` fails the pattern does not match at `i` at all. */
  lemma MatchHereNotFound(s: string, i: nat)
    requires i <= |s| && MatchHere(s, i).None?
    ensures NoMatchAt(s, i)
  {
    if CiPrefixAt(s, i, Open) {
      var p := i + |Open|;
      var b := p + SpaceRun(s, p);
      MatchLenNotFound(s, b, 0);
      forall k, n
        ensures !MatchAt(s, i, k, n)
      {
        var m := GreedySkip(s, i, k, n);
        if b + m <= |s| {
          CloseAfterIff(s, b + m);
        }
      }
    }
  }

  /** When `FindFrom` finds nothing, the pattern matches at no start from `i` on. */
  lemma {:induction false} FindFromNotFound(s: string, i: nat)
    requires i <= |s| && FindFrom(s, i).None?
    ensures forall i' | i <= i' :: NoMatchAt(s, i')
    decreases |s| - i
  {
    MatchHereNotFound(s, i);
    if i < |s| {
      FindFromNotFound(s, i + 1);
    } else {
      forall i' | i < i'
        ensures NoMatchAt(s, i')
      {
      }
    }
  }

  /** When `FindFrom` finds a start, it is the leftmost from `i` on at which the pattern
      matches, and the attempt there succeeds. */
  lemma {:induction false} FindFromFound(s: string, i: nat)
    requires i <= |s| && FindFrom(s, i).Some?
    ensures var h := FindFrom(s, i).value;
            MatchHere(s, h.start) == Some(h)
            && forall i' | i <= i' < h.start :: NoMatchAt(s, i')
    decreases |s| - i
  {
    if MatchHere(s, i).None? {
      MatchHereNotFound(s, i);
      FindFromFound(s, i + 1);
    }
  }

  /** `Search` is `re.search`: it finds nothing exactly when the pattern matches nowhere,
      and otherwise it finds the match Python's engine reports. */
  lemma SearchIsLeftmost(s: string)
    ensures Search(s).None? <==> forall i :: NoMatchAt(s, i)
    ensures Search(s).Some? ==> var h := Search(s).value; Leftmost(s, h.start, h.skip, h.len)
  {
    if Search(s).None? {
      FindFromNotFound(s, 0);
    } else {
      FindFromFound(s, 0);
      var h := Search(s).value;
      MatchHereFound(s, h.start);
      assert !NoMatchAt(s, h.start);
    }
  }

  /** The reported match is unique. */
  lemma LeftmostUnique(s: string, i: int, k: int, n: int, i2: int, k2: int, n2: int)
    requires Leftmost(s, i, k, n) && Leftmost(s, i2, k2, n2)
    ensures i == i2 && k == k2 && n == n2
  {
    assert !NoMatchAt(s, i) && !NoMatchAt(s, i2);
  }

  /** A whitespace character at the front of a group could be taken by the first `\s*`
      instead. */
  lemma SpaceMovesToSkip(s: string, i: int, k: int, n: int)
    requires MatchAt(s, i, k, n) && n > 0
    ensures IsSpace(s[i + |Open| + k]) ==> MatchAt(s, i, k + 1, n - 1)
  {
  }

  /** A whitespace character at the end of a group could be taken by the second `\s*`
      instead. */
  lemma SpaceMovesToClose(s: string, i: int, k: int, n: int)
    requires MatchAt(s, i, k, n) && n > 0
    ensures IsSpace(s[i + |Open| + k + n - 1]) ==> MatchAt(s, i, k, n - 1)
  {
    var e := i + |Open| + k + n;
    ClosesAtSkipsSpace(s, e - 1);
    CloseAfterIff(s, e);
    CloseAfterIff(s, e - 1);
  }

  /** The group of the reported match is already trimmed: the greedy `\s*` left no
      whitespace in front of it and the lazy group stopped before any trailing whitespace. */
  lemma LeftmostGroupIsTrimmed(s: string, i: int, k: int, n: int)
    requires Leftmost(s, i, k, n)
    ensures Trimmed(Group(s, i, k, n))
  {
    if n > 0 {
      var p := i + |Open|;
      SpaceMovesToSkip(s, i, k, n);
      SpaceMovesToClose(s, i, k, n);
      assert Group(s, i, k, n)[0] == s[p + k];
      assert Group(s, i, k, n)[n - 1] == s[p + k + n - 1];
    }
  }

  /** What `Extract` returns, stated against the regular expression: with no match, the
      trimmed input. */
  lemma ExtractWithoutMatch(s: string)
    requires forall i :: NoMatchAt(s, i)
    ensures Extract(s) == Strip(s)
  {
    SearchIsLeftmost(s);
  }

  /** What `Extract` returns, stated against the regular expression: with a match, exactly
      the group of the match `re.search` reports. */
  lemma ExtractLeftmost(s: string, i: int, k: int, n: int)
    requires Leftmost(s, i, k, n)
    ensures Extract(s) == Group(s, i, k, n)
  {
    SearchIsLeftmost(s);
    assert !NoMatchAt(s, i);
    var h := Search(s).value;
    LeftmostUnique(s, i, k, n, h.start, h.skip, h.len);
    LeftmostGroupIsTrimmed(s, i, k, n);
    StripTrimmed(Group(s, i, k, n));
  }

  /** `a` is the answer Python reads from `s`: the trimmed group of the match `re.search`
      reports, or the trimmed text when the pattern matches nowhere. */
  ghost predicate IsAnswer(s: string, a: string) {
    (exists i, k, n :: Leftmost(s, i, k, n) && a == Strip(Group(s, i, k, n)))
    || ((forall i :: NoMatchAt(s, i)) && a == Strip(s))
  }

  /** `Extract` computes exactly the answer of `s`, and that answer is unique. */
  lemma ExtractIsTheAnswer(s: string, a: string)
    ensures IsAnswer(s, a) <==> a == Extract(s)
  {
    SearchIsLeftmost(s);
    if Search(s).Some? {
      var h := Search(s).value;
      assert !NoMatchAt(s, h.start);
      ExtractLeftmost(s, h.start, h.skip, h.len);
      LeftmostGroupIsTrimmed(s, h.start, h.skip, h.len);
      StripTrimmed(Group(s, h.start, h.skip, h.len));
      forall i, k, n | Leftmost(s, i, k, n)
        ensures Group(s, i, k, n) == Group(s, h.start, h.skip, h.len)
      {
        LeftmostUnique(s, i, k, n, h.start, h.skip, h.len);
      }
    } else {
      ExtractWithoutMatch(s);
      forall i, k, n | Leftmost(s, i, k, n)
        ensures !NoMatchAt(s, i)
      {
      }
    }
  }

  /** Text without `<` cannot contain the opening tag, so it is read as the trimmed text. */
  lemma ExtractWithoutTag(s: string)
    requires forall j | 0 <= j < |s| :: s[j] != '<'
    ensures Extract(s) == Strip(s)
  {
    SkipToTag(s, 0, |s|);
  }

  // ---- formatting then reading --------------------------------------------------

  /** A value the wire format carries faithfully: one line, no `<`, already trimmed. */
  predicate Carriable(v: string) {
    Trimmed(v) && forall k | 0 <= k < |v| :: v[k] != '<' && v[k] != '\n'
  }

  /** No start before position `m` can open a tag when `s[..m]` has no `<`. */
  lemma {:induction false} SkipToTag(s: string, i: nat, m: nat)
    requires i <= m <= |s|
    requires forall j | 0 <= j < m :: s[j] != '<'
    ensures FindFrom(s, i) == FindFrom(s, m)
    decreases m - i
  {
    if i < m {
      TagStartsWithLt(s, i, Open);
      SkipToTag(s, i + 1, m);
    }
  }

  /** Over a stretch `s[b..c]` without `<` or newline that does not end in whitespace, and
      with the closing tag at `c`, the lazy group keeps growing until it reaches `c`. */
  lemma {:induction false} MatchLenReachesClose(s: string, b: nat, c: nat, n: nat)
    requires b + n <= c && CiPrefixAt(s, c, Close)
    requires forall j | b <= j < c :: s[j] != '<' && s[j] != '\n'
    requires b < c ==> !IsSpace(s[c - 1])
    ensures MatchLen(s, b, n) == Some(c - b)
    decreases c - b - n
  {
    var q := b + n;
    TagStartsWithLt(s, c, Close);
    if q < c {
      SpaceRunStops(s, q, c - 1);
      TagStartsWithLt(s, q + SpaceRun(s, q), Close);
      MatchLenReachesClose(s, b, c, n + 1);
    } else {
      assert !IsSpace(s[q]);
    }
  }

  /** The opening tag of `pre + Wrap(v) + post` sits right after `pre`. */
  lemma WrappedOpens(pre: string, v: string, post: string)
    ensures CiPrefixAt(pre + Wrap(v) + post, |pre|, Open)
  {
    var s := pre + Wrap(v) + post;
    assert s[|pre|..|pre| + |Open|] == Open;
    CiEqualRefl(Open);
  }

  /** The closing tag of `pre + Wrap(v) + post` sits right after `v`. */
  lemma WrappedCloses(pre: string, v: string, post: string)
    ensures CiPrefixAt(pre + Wrap(v) + post, |pre| + |Open| + |v|, Close)
  {
    var a := pre + Open + v;
    assert pre + Wrap(v) + post == a + Close + post;
    assert (a + Close + post)[|a|..|a| + |Close|] == Close;
    CiEqualRefl(Close);
  }

  /** Between the tags of `pre + Wrap(v) + post` lies `v`, character by character. */
  lemma WrappedValue(pre: string, v: string, post: string)
    ensures var s := pre + Wrap(v) + post;
            var b := |pre| + |Open|;
            |s| >= b + |v| && s[b..b + |v|] == v
  {
  }

  /** At a tag opening at `at` whose carriable group runs up to a closing tag at `c`,
      the scanner skips no whitespace and takes the whole group. */
  lemma MatchHereTagged(s: string, at: nat, c: nat)
    requires at + |Open| <= c && CiPrefixAt(s, at, Open) && CiPrefixAt(s, c, Close)
    requires Carriable(s[at + |Open|..c])
    ensures MatchHere(s, at) == Some(Hit(at, 0, c - at - |Open|))
  {
    var b := at + |Open|;
    var v := s[b..c];
    assert forall j | b <= j < c :: s[j] == v[j - b];
    TagStartsWithLt(s, c, Close);
    assert SpaceRun(s, b) == 0 by {
      if b < c {
        assert s[b] == v[0];
      }
    }
    MatchLenReachesClose(s, b, c, 0);
  }

  /** Reading a text whose first tag opens at `at` and whose carriable group runs up to
      a closing tag at `c` yields that group. */
  lemma ExtractTagged(s: string, at: nat, c: nat)
    requires at + |Open| <= c && CiPrefixAt(s, at, Open) && CiPrefixAt(s, c, Close)
    requires forall j | 0 <= j < at :: s[j] != '<'
    requires Carriable(s[at + |Open|..c])
    ensures Extract(s) == s[at + |Open|..c]
  {
    var v := s[at + |Open|..c];
    SkipToTag(s, 0, at);
    MatchHereTagged(s, at, c);
    var h := Hit(at, 0, |v|);
    assert Search(s) == Some(h);
    assert Group(s, at, 0, |v|) == v;
    StripTrimmed(v);
  }

  /** Round trip: a carriable value wrapped in the tags, preceded by text without `<` and
      followed by anything, reads back as exactly that value. */
  lemma ExtractWrapped(pre: string, v: string, post: string)
    requires forall j | 0 <= j < |pre| :: pre[j] != '<'
    requires Carriable(v)
    ensures Extract(pre + Wrap(v) + post) == v
  {
    var s := pre + Wrap(v) + post;
    WrappedOpens(pre, v, post);
    WrappedCloses(pre, v, post);
    WrappedValue(pre, v, post);
    assert forall j | 0 <= j < |pre| :: s[j] == pre[j];
    ExtractTagged(s, |pre|, |pre| + |Open| + |v|);
  }

  /** Round trip of the gold answer: reading `<answer>{count}</answer>` yields exactly the
      decimal text of `count`. */
  lemma GoldRoundTrip(count: int)
    ensures Extract(Gold(count)) == IntToDecimal(count)
  {
    var v := IntToDecimal(count);
    assert Carriable(v);
    ExtractWrapped([], v, []);
    assert [] + Wrap(v) + [] == Gold(count);
  }
}
