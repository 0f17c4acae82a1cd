/**
 * `PixmoCountEnv.score`: shuffle the candidates, then walk them in the new order, reward
 * each by comparing the answer it carries with the gold answer, drop the ones whose loss
 * mask has too few trainable positions, and stop once `group_size` are kept.
 *
 * The walk is the method `AssembleBatch`; it is proved against the specification
 * functions `Kept`, `Selected` and `BatchOf`, whose own properties are the lemmas below.
 */
module Scoring {
  import opened Wrappers
  import opened Text
  import opened AnswerTag
  import opened Trajectory

  /** Mask value of positions that do not count for training. */
  const IgnoreIndex: int := -100

  /** Fewest trainable positions a candidate needs to enter the batch. */
  const MinTrainable: nat := 10

  // ---- the reward -------------------------------------------------------------

  /** `item[0][-1]["content"]`: the content of the last turn, or `None` when there is no
      last turn (an `IndexError`) or it carries no text (`re.search` on `None` raises). */
  function Reply(h: History): Option<string> {
    if |h| == 0 then None else h[|h| - 1].content
  }

  /** The outcome of the `try` block: the answers agree, they differ, or an exception
      was raised while reading them. The source collapses the last two into `False`. */
  datatype Verdict = Correct | Wrong | ScoringFailed

  function Judge(r: Rollout): Verdict {
    match Reply(r.history)
    case None => ScoringFailed
    case Some(reply) =>
      if Lower(Extract(reply)) == Lower(Extract(r.gold)) then Correct else Wrong
  }

  /** `1.0 if reward else -1.0`. */
  function Reward(r: Rollout): (x: real)
    ensures x == 1.0 || x == -1.0
  {
    if Judge(r) == Correct then 1.0 else -1.0
  }

  /** The verdict against the regular expression's meaning: scoring fails exactly when
      there is no reply text, and the candidate is correct exactly when the answers read
      from the reply and from the gold agree after lower-casing. */
  lemma JudgeMeaning(r: Rollout)
    ensures Judge(r) == ScoringFailed <==> Reply(r.history).None?
    ensures Judge(r) == Correct <==>
              Reply(r.history).Some?
              && exists a, b :: IsAnswer(Reply(r.history).value, a) && IsAnswer(r.gold, b)
                                && Lower(a) == Lower(b)
  {
    if Reply(r.history).Some? {
      var reply := Reply(r.history).value;
      ExtractIsTheAnswer(reply, Extract(reply));
      ExtractIsTheAnswer(r.gold, Extract(r.gold));
      forall a, b | IsAnswer(reply, a) && IsAnswer(r.gold, b)
        ensures a == Extract(reply) && b == Extract(r.gold)
      {
        ExtractIsTheAnswer(reply, a);
        ExtractIsTheAnswer(r.gold, b);
      }
    }
  }

  /** The reward is +1.0 exactly when the candidate is correct, and -1.0 both for a wrong
      answer and for a failed scoring. */
  lemma RewardIff(r: Rollout)
    ensures Reward(r) == 1.0 <==> Judge(r) == Correct
    ensures Reward(r) == -1.0 <==> Judge(r) in {Wrong, ScoringFailed}
  {
  }

  /** With a reply present, the reward is +1.0 exactly when the answer read from it
      matches the answer read from the gold, ignoring case. */
  lemma RewardAgainstGold(r: Rollout, reply: string)
    requires Reply(r.history) == Some(reply)
    ensures Reward(r) == 1.0 <==> Lower(Extract(reply)) == Lower(Extract(r.gold))
  {
  }

  /** A reply that states the gold count in the tags, after text without `<`, is
      rewarded, whatever follows it. */
  lemma CorrectCountRewarded(h: History, count: int, pre: string, post: string, image: Option<string>)
    requires |h| > 0 && h[|h| - 1].content == Some(pre + Gold(count) + post)
    requires forall j | 0 <= j < |pre| :: pre[j] != '<'
    ensures Reward(Rollout(h, Gold(count), image)) == 1.0
  {
    var v := IntToDecimal(count);
    assert Carriable(v);
    ExtractWrapped(pre, v, post);
    GoldRoundTrip(count);
  }

  /** A reply that states a different count in the tags, after text without `<`, is
      penalised, whatever follows it. */
  lemma WrongCountPenalised(h: History, count: int, said: int, pre: string, post: string, image: Option<string>)
    requires |h| > 0 && h[|h| - 1].content == Some(pre + Gold(said) + post)
    requires forall j | 0 <= j < |pre| :: pre[j] != '<'
    requires said != count
    ensures Reward(Rollout(h, Gold(count), image)) == -1.0
  {
    var v := IntToDecimal(said);
    var r := Rollout(h, Gold(count), image);
    assert Carriable(v);
    ExtractWrapped(pre, v, post);
    GoldRoundTrip(count);
    RewardAgainstGold(r, pre + Gold(said) + post);
    LowerDecimal(count);
    LowerDecimal(said);
    assert v != IntToDecimal(count) by {
      DecimalRoundTrip(count);
      DecimalRoundTrip(said);
    }
  }

  /** A missing reply is penalised rather than raising. */
  lemma MissingReplyPenalised(r: Rollout)
    requires Reply(r.history).None?
    ensures Judge(r) == ScoringFailed && Reward(r) == -1.0
  {
  }

  /** Worked example: `"The count is <answer>7</answer>."` against the gold
      `<answer>7</answer>` is rewarded. */
  lemma RewardExampleTagged(h: History, image: Option<string>)
    requires |h| > 0 && h[|h| - 1].content == Some("The count is <answer>7</answer>.")
    ensures Reward(Rollout(h, "<answer>7</answer>", image)) == 1.0
  {
    assert IntToDecimal(7) == "7";
    assert Gold(7) == "<answer>7</answer>";
    assert "The count is <answer>7</answer>." == "The count is " + Gold(7) + ".";
    CorrectCountRewarded(h, 7, "The count is ", ".", image);
  }

  /** Worked example: `"<answer>8</answer>"` against the gold `<answer>7</answer>` is
      penalised. */
  lemma RewardExampleOther(h: History, image: Option<string>)
    requires |h| > 0 && h[|h| - 1].content == Some("<answer>8</answer>")
    ensures Reward(Rollout(h, "<answer>7</answer>", image)) == -1.0
  {
    assert IntToDecimal(7) == "7";
    assert IntToDecimal(8) == "8";
    assert Gold(7) == "<answer>7</answer>";
    assert Gold(8) == "<answer>8</answer>";
    assert "<answer>8</answer>" == "" + Gold(8) + "";
    WrongCountPenalised(h, 7, 8, "", "", image);
  }

  /** A reply without tags is compared whole, after stripping, with the gold answer. */
  lemma UntaggedReplyRead(r: Rollout, said: string)
    requires Reply(r.history) == Some(said)
    requires forall j | 0 <= j < |said| :: said[j] != '<'
    ensures Reward(r) == 1.0 <==> Lower(Strip(said)) == Lower(Extract(r.gold))
  {
    ExtractWithoutTag(said);
  }

  /** A reply without tags that, stripped and lower-cased, is not the gold count's
      decimal text (a count written out in words, say) is penalised. */
  lemma UntaggedCountPenalised(h: History, count: int, said: string, image: Option<string>)
    requires |h| > 0 && h[|h| - 1].content == Some(said)
    requires forall j | 0 <= j < |said| :: said[j] != '<'
    requires Lower(Strip(said)) != IntToDecimal(count)
    ensures Reward(Rollout(h, Gold(count), image)) == -1.0
  {
    var r := Rollout(h, Gold(count), image);
    UntaggedReplyRead(r, said);
    GoldRoundTrip(count);
    LowerDecimal(count);
  }

  // ---- the length filter --------------------------------------------------------

  /** `len([i for i in masks if i != -100])`. */
  function Trainable(masks: seq<int>): nat {
    if masks == [] then 0
    else Trainable(masks[..|masks| - 1]) + (if masks[|masks| - 1] != IgnoreIndex then 1 else 0)
  }

  /** The positions of a mask that count for training. */
  function TrainablePositions(masks: seq<int>): set<nat> {
    set k: nat | k < |masks| && masks[k] != IgnoreIndex
  }

  /** `Trainable` counts exactly the trainable positions. */
  lemma {:induction false} TrainableCountsPositions(masks: seq<int>)
    ensures Trainable(masks) == |TrainablePositions(masks)|
  {
    if masks != [] {
      var init := masks[..|masks| - 1];
      TrainableCountsPositions(init);
      var last := |masks| - 1;
      if masks[last] != IgnoreIndex {
        assert TrainablePositions(masks) == TrainablePositions(init) + {last};
      } else {
        assert TrainablePositions(masks) == TrainablePositions(init);
      }
    }
  }

  /** The candidate survives the filter at line 143. */
  predicate Passes(r: Rollout, tok: History -> Tokenized) {
    Trainable(tok(r.history).masks) >= MinTrainable
  }

  // ---- which candidates are kept ---------------------------------------------

  /** The positions, among the first `t` of `order`, of candidates that pass the filter,
      in scanning order (see `KeptIsPassing`). */
  function Kept(order: seq<Rollout>, tok: History -> Tokenized, t: nat): (ks: seq<nat>)
    requires t <= |order|
    ensures forall i | 0 <= i < |ks| :: ks[i] < t
  {
    if t == 0 then []
    else Kept(order, tok, t - 1) + (if Passes(order[t - 1], tok) then [t - 1] else [])
  }

  /** Every position `Kept` lists passes the filter. */
  lemma {:induction false} KeptPasses(order: seq<Rollout>, tok: History -> Tokenized, t: nat)
    requires t <= |order|
    ensures forall i | 0 <= i < |Kept(order, tok, t)| :: Passes(order[Kept(order, tok, t)[i]], tok)
  {
    if t > 0 {
      KeptPasses(order, tok, t - 1);
      KeptStep(order, tok, t - 1);
    }
  }

  /** `Kept` lists positions in increasing order, so none twice. */
  lemma {:induction false} KeptIncreasing(order: seq<Rollout>, tok: History -> Tokenized, t: nat)
    requires t <= |order|
    ensures forall i, j | 0 <= i < j < |Kept(order, tok, t)| :: Kept(order, tok, t)[i] < Kept(order, tok, t)[j]
  {
    if t > 0 {
      KeptIncreasing(order, tok, t - 1);
      KeptStep(order, tok, t - 1);
    }
  }

  /** `Kept` misses no passing position below `t`. */
  lemma {:induction false} KeptComplete(order: seq<Rollout>, tok: History -> Tokenized, t: nat)
    requires t <= |order|
    ensures forall j | 0 <= j < t && Passes(order[j], tok) :: j in Kept(order, tok, t)
  {
    if t > 0 {
      KeptComplete(order, tok, t - 1);
      KeptStep(order, tok, t - 1);
    }
  }

  /** How many entries the batch holds before the loop breaks: `group_size`, or a single
      one when `group_size <= 0`, since the length check runs only after an append. */
  function Capacity(groupSize: int): nat {
    if groupSize >= 1 then groupSize else 1
  }

  function Min(a: nat, b: nat): nat {
    if a <= b then a else b
  }

  /** The positions the loop keeps: the passing ones, up to the capacity. */
  function Selected(order: seq<Rollout>, groupSize: int, tok: History -> Tokenized): (sel: seq<nat>)
    ensures forall i | 0 <= i < |sel| :: sel[i] < |order|
  {
    var ks := Kept(order, tok, |order|);
    if |ks| <= Capacity(groupSize) then ks else ks[..Capacity(groupSize)]
  }

  /** The passing candidates among the first `t`. */
  function PassingBelow(order: seq<Rollout>, tok: History -> Tokenized, t: nat): set<nat>
    requires t <= |order|
  {
    set j: nat | j < t && Passes(order[j], tok)
  }

  /** Scanning a longer stretch only adds positions at the end. */
  lemma {:induction false} KeptPrefix(order: seq<Rollout>, tok: History -> Tokenized, t: nat, u: nat)
    requires t <= u <= |order|
    ensures Kept(order, tok, t) <= Kept(order, tok, u)
    decreases u - t
  {
    if t < u {
      KeptPrefix(order, tok, t, u - 1);
    }
  }

  /** One more position adds at most that position to the passing set. */
  lemma PassingBelowStep(order: seq<Rollout>, tok: History -> Tokenized, t: nat)
    requires 0 < t <= |order|
    ensures PassingBelow(order, tok, t)
              == PassingBelow(order, tok, t - 1) + (if Passes(order[t - 1], tok) then {t - 1} else {})
  {
  }

  /** `Kept` lists every passing candidate once. */
  lemma {:induction false} KeptCount(order: seq<Rollout>, tok: History -> Tokenized, t: nat)
    requires t <= |order|
    ensures |Kept(order, tok, t)| == |PassingBelow(order, tok, t)|
  {
    if t > 0 {
      KeptCount(order, tok, t - 1);
      PassingBelowStep(order, tok, t);
      assert t - 1 !in PassingBelow(order, tok, t - 1);
    }
  }

  /** A passing candidate sits in `Kept` right after the passing candidates before it. */
  lemma KeptIndex(order: seq<Rollout>, tok: History -> Tokenized, j: nat)
    requires j < |order| && Passes(order[j], tok)
    ensures var ks := Kept(order, tok, |order|);
            var c := |Kept(order, tok, j)|;
            c < |ks| && ks[c] == j
  {
    KeptPrefix(order, tok, j + 1, |order|);
    assert Kept(order, tok, j + 1) == Kept(order, tok, j) + [j];
  }

  /** A candidate is kept exactly when it passes the filter and fewer than the capacity
      of the passing candidates come before it. */
  lemma SelectedIff(order: seq<Rollout>, groupSize: int, tok: History -> Tokenized, j: int)
    ensures j in Selected(order, groupSize, tok) <==>
              0 <= j < |order| && Passes(order[j], tok)
              && |Kept(order, tok, j)| < Capacity(groupSize)
  {
    var ks := Kept(order, tok, |order|);
    var cap := Capacity(groupSize);
    KeptPasses(order, tok, |order|);
    KeptIncreasing(order, tok, |order|);
    KeptComplete(order, tok, |order|);
    var sel := Selected(order, groupSize, tok);
    assert |sel| == Min(cap, |ks|) && forall i | 0 <= i < |sel| :: sel[i] == ks[i];
    if j in sel {
      var i :| 0 <= i < |sel| && sel[i] == j;
      assert ks[i] == j;
      KeptIndex(order, tok, j);
      assert i == |Kept(order, tok, j)|;
    }
    if 0 <= j < |order| && Passes(order[j], tok) && |Kept(order, tok, j)| < cap {
      KeptIndex(order, tok, j);
      assert sel[|Kept(order, tok, j)|] == j;
    }
  }

  /** A candidate below the threshold never appears, whatever its reward. */
  lemma FilteredOut(order: seq<Rollout>, groupSize: int, tok: History -> Tokenized, j: nat)
    requires j < |order| && !Passes(order[j], tok)
    ensures j !in Selected(order, groupSize, tok)
  {
    SelectedIff(order, groupSize, tok, j);
  }

  /** The kept positions form a subsequence of the shuffled order: they are strictly
      increasing, so no candidate is kept twice, and each one passes the filter. */
  lemma SelectedIsSubsequence(order: seq<Rollout>, groupSize: int, tok: History -> Tokenized)
    ensures var sel := Selected(order, groupSize, tok);
            && (forall i | 0 <= i < |sel| :: sel[i] < |order| && Passes(order[sel[i]], tok))
            && (forall i, j | 0 <= i < j < |sel| :: sel[i] < sel[j])
  {
    var ks := Kept(order, tok, |order|);
    var sel := Selected(order, groupSize, tok);
    KeptPasses(order, tok, |order|);
    KeptIncreasing(order, tok, |order|);
    assert |sel| <= |ks| && forall i | 0 <= i < |sel| :: sel[i] == ks[i];
    forall i | 0 <= i < |sel|
      ensures Passes(order[sel[i]], tok)
    {
      assert sel[i] == ks[i];
      assert Passes(order[ks[i]], tok);
    }
  }

  /** The batch holds `min(capacity, passing candidates)` entries: all passing ones while
      they fit, exactly the capacity once more pass. */
  lemma SelectedSize(order: seq<Rollout>, groupSize: int, tok: History -> Tokenized)
    ensures |Selected(order, groupSize, tok)|
              == Min(Capacity(groupSize), |PassingBelow(order, tok, |order|)|)
  {
    KeptCount(order, tok, |order|);
  }

  // ---- the batch -------------------------------------------------------------

  /** `scores`: four parallel lists, one slot per kept candidate. */
  datatype ScoredBatch = ScoredBatch(
    tokens: seq<seq<int>>,
    masks: seq<seq<int>>,
    scores: seq<real>,
    images: seq<Option<string>>)

  predicate Aligned(b: ScoredBatch) {
    |b.tokens| == |b.masks| == |b.scores| == |b.images|
  }

  const EmptyBatch := ScoredBatch([], [], [], [])

  /** The four appends at lines 146-152: one candidate's tokens, mask, score and image. */
  function Push(b: ScoredBatch, out: Tokenized, score: real, image: Option<string>): ScoredBatch {
    b.(tokens := b.tokens + [out.tokens],
       masks := b.masks + [out.masks],
       scores := b.scores + [score],
       images := b.images + [image])
  }

  /** The batch built by pushing the candidates at positions `ks`, in that order. Slot
      `i` of each of the four lists comes from the candidate at `ks[i]`. The scoring
      function is a parameter so that the batch's shape can be reasoned about apart
      from the answer parsing; `score` passes `Reward`. */
  function BatchOf(order: seq<Rollout>, ks: seq<nat>, tok: History -> Tokenized, reward: Rollout -> real)
    : (b: ScoredBatch)
    requires forall i | 0 <= i < |ks| :: ks[i] < |order|
    ensures Aligned(b) && |b.tokens| == |ks|
    ensures forall i | 0 <= i < |ks| :: b.tokens[i] == tok(order[ks[i]].history).tokens
    ensures forall i | 0 <= i < |ks| :: b.masks[i] == tok(order[ks[i]].history).masks
    ensures forall i | 0 <= i < |ks| :: b.images[i] == order[ks[i]].image
  {
    if ks == [] then EmptyBatch
    else
      var r := order[ks[|ks| - 1]];
      Push(BatchOf(order, ks[..|ks| - 1], tok, reward), tok(r.history), reward(r), r.image)
  }

  /** Slot `i` of the scores is the score of the candidate at `ks[i]`. */
  lemma {:induction false} BatchOfScores(order: seq<Rollout>, ks: seq<nat>, tok: History -> Tokenized, reward: Rollout -> real)
    requires forall i | 0 <= i < |ks| :: ks[i] < |order|
    ensures forall i | 0 <= i < |ks| :: BatchOf(order, ks, tok, reward).scores[i] == reward(order[ks[i]])
  {
    if ks != [] {
      BatchOfScores(order, ks[..|ks| - 1], tok, reward);
    }
  }

  /** Scanning one more candidate keeps it exactly when it passes. */
  lemma KeptStep(order: seq<Rollout>, tok: History -> Tokenized, t: nat)
    requires t < |order|
    ensures Kept(order, tok, t + 1)
              == Kept(order, tok, t) + (if Passes(order[t], tok) then [t] else [])
  {
  }

  /** Pushing one more candidate extends the batch by that candidate's entries. */
  lemma BatchOfSnoc(order: seq<Rollout>, ks: seq<nat>, t: nat, tok: History -> Tokenized, reward: Rollout -> real)
    requires forall i | 0 <= i < |ks| :: ks[i] < |order|
    requires t < |order|
    ensures BatchOf(order, ks + [t], tok, reward)
              == Push(BatchOf(order, ks, tok, reward), tok(order[t].history), reward(order[t]), order[t].image)
  {
    assert (ks + [t])[..|ks|] == ks;
  }

  /** When the scan reaches the end below capacity, every passing candidate is kept. */
  lemma SelectedWhenExhausted(order: seq<Rollout>, groupSize: int, tok: History -> Tokenized)
    requires |Kept(order, tok, |order|)| < Capacity(groupSize)
    ensures Selected(order, groupSize, tok) == Kept(order, tok, |order|)
  {
  }

  /** When the batch fills up after `t` candidates, the kept ones are those passing among
      the first `t`, and nothing later is looked at. */
  lemma SelectedWhenFull(order: seq<Rollout>, groupSize: int, tok: History -> Tokenized, t: nat)
    requires t <= |order| && |Kept(order, tok, t)| == Capacity(groupSize)
    ensures Selected(order, groupSize, tok) == Kept(order, tok, t)
  {
    KeptPrefix(order, tok, t, |order|);
  }

  /** What the batch of the kept candidates holds: four aligned lists of at most the
      capacity, `min(capacity, passing)` entries, each with enough trainable positions
      and a score of 1.0 or -1.0. */
  lemma SelectedBatch(order: seq<Rollout>, groupSize: int, tok: History -> Tokenized)
    ensures var b := BatchOf(order, Selected(order, groupSize, tok), tok, Reward);
            && Aligned(b) && |b.tokens| <= Capacity(groupSize)
            && |b.tokens| == Min(Capacity(groupSize), |PassingBelow(order, tok, |order|)|)
            && (forall i | 0 <= i < |b.masks| :: Trainable(b.masks[i]) >= MinTrainable)
            && (forall i | 0 <= i < |b.scores| :: b.scores[i] == 1.0 || b.scores[i] == -1.0)
  {
    SelectedSize(order, groupSize, tok);
    SelectedIsSubsequence(order, groupSize, tok);
    BatchOfScores(order, Selected(order, groupSize, tok), tok, Reward);
  }

  /** The loop of `score` over the already shuffled candidates (lines 125-157), with the
      scoring rule of lines 130-148 as the parameter `reward`; `Score` passes `Reward`. */
  method AssembleBatch(order: seq<Rollout>, groupSize: int, tok: History -> Tokenized, reward: Rollout -> real)
    returns (batch: ScoredBatch)
    ensures batch == BatchOf(order, Selected(order, groupSize, tok), tok, reward)
  {
    batch := EmptyBatch;
    ghost var kept: seq<nat> := [];
    var t := 0;
    while t < |order|
      invariant t <= |order|
      invariant kept == Kept(order, tok, t)
      invariant |kept| < Capacity(groupSize)
      invariant batch == BatchOf(order, kept, tok, reward)
    {
      var item := order[t];
      var out := tok(item.history);
      var score := reward(item);
      KeptStep(order, tok, t);
      if Trainable(out.masks) < MinTrainable {
        t := t + 1;
        continue;
      }
      BatchOfSnoc(order, kept, t, tok, reward);
      batch := Push(batch, out, score, item.image);
      kept := kept + [t];
      t := t + 1;
      if |batch.tokens| >= groupSize {
        SelectedWhenFull(order, groupSize, tok, t);
        break;
      }
    }
    if t == |order| && |kept| < Capacity(groupSize) {
      SelectedWhenExhausted(order, groupSize, tok);
    }
  }

  // ---- the shuffle -------------------------------------------------------------

  /** `perm` is a permutation of `0..n`. */
  predicate IsPermutation(perm: seq<nat>, n: nat) {
    |perm| == n
    && (forall i | 0 <= i < n :: perm[i] < n)
    && (forall i, j | 0 <= i < j < n :: perm[i] != perm[j])
    && (forall j | 0 <= j < n :: j in perm)
  }

  /** The list after `random.shuffle`, for the permutation it happened to draw: slot `i`
      now holds the candidate that was at `perm[i]`. */
  function Shuffled(s: seq<Rollout>, perm: seq<nat>): (r: seq<Rollout>)
    requires IsPermutation(perm, |s|)
    ensures |r| == |s|
  {
    seq(|s|, i requires 0 <= i < |s| => s[perm[i]])
  }

  /** Where `j` is in `perm`. */
  function IndexOf(perm: seq<nat>, j: nat): (i: nat)
    requires j in perm
    ensures i < |perm| && perm[i] == j
  {
    if perm[0] == j then 0 else 1 + IndexOf(perm[1..], j)
  }

  /** The permutation that undoes `perm`. */
  function Inverse(perm: seq<nat>): (inv: seq<nat>)
    requires IsPermutation(perm, |perm|)
    ensures |inv| == |perm| && forall j | 0 <= j < |perm| :: inv[j] < |perm| && perm[inv[j]] == j
  {
    seq(|perm|, j requires 0 <= j < |perm| => IndexOf(perm, j))
  }

  /** The inverse is a permutation too. */
  lemma InverseIsPermutation(perm: seq<nat>)
    requires IsPermutation(perm, |perm|)
    ensures IsPermutation(Inverse(perm), |perm|)
  {
    var inv := Inverse(perm);
    forall i | 0 <= i < |perm|
      ensures i in inv
    {
      var j := perm[i];
      assert perm[inv[j]] == j;
      assert inv[j] == i;
    }
  }

  /** Shuffling loses and duplicates nothing: shuffling with the inverse permutation
      gives the original list back. */
  lemma ShuffleUndone(s: seq<Rollout>, perm: seq<nat>)
    requires IsPermutation(perm, |s|)
    ensures IsPermutation(Inverse(perm), |s|)
    ensures Shuffled(Shuffled(s, perm), Inverse(perm)) == s
  {
    InverseIsPermutation(perm);
  }

  /** The kept candidates are distinct entries of the caller's list. */
  lemma NoDuplicateCandidates(s: seq<Rollout>, perm: seq<nat>, groupSize: int, tok: History -> Tokenized)
    requires IsPermutation(perm, |s|)
    ensures var sel := Selected(Shuffled(s, perm), groupSize, tok);
            forall i, j | 0 <= i < j < |sel| :: perm[sel[i]] != perm[sel[j]]
  {
    SelectedIsSubsequence(Shuffled(s, perm), groupSize, tok);
  }

  /** `random.shuffle(rollout_group_data)`: permutes the caller's list in place. */
  method Shuffle(a: array<Rollout>, perm: seq<nat>)
    requires IsPermutation(perm, a.Length)
    modifies a
    ensures a[..] == Shuffled(old(a[..]), perm)
  {
    var src := a[..];
    forall i | 0 <= i < a.Length {
      a[i] := src[perm[i]];
    }
  }

  /** `score`: shuffle the caller's list with the drawn permutation, then assemble the
      batch from it. */
  method Score(rollouts: array<Rollout>, perm: seq<nat>, groupSize: int, tok: History -> Tokenized)
    returns (batch: ScoredBatch)
    requires IsPermutation(perm, rollouts.Length)
    modifies rollouts
    ensures rollouts[..] == Shuffled(old(rollouts[..]), perm)
    ensures batch == BatchOf(rollouts[..], Selected(rollouts[..], groupSize, tok), tok, Reward)
  {
    Shuffle(rollouts, perm);
    batch := AssembleBatch(rollouts[..], groupSize, tok, Reward);
  }
}
