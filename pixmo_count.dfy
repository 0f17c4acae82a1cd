/**
 * `PixmoCountEnv`: hands out counting questions about the images of the pixmo-count
 * training split in round-robin order, asks the generation server for a group of answers
 * to each, and turns the answers into candidate trajectories for `score` (module
 * `Scoring`).
 *
 * The cursor over the training split is the one piece of state the environment updates,
 * so it lives in the class `PixmoCountEnv`; what one call of `get_next_item` hands out is
 * specified by the function `Draw`, and the properties of the round-robin walk are the
 * lemmas about `Draw` and `RoundIndices`.
 */
module PixmoCount {
  import opened Wrappers
  import opened Text
  import opened AnswerTag
  import opened Trajectory
  import opened Scoring
  import opened Arith

  /** One row of the training split: `entry["label"]` (the kind of object counted), `entry["count"]` and
      `entry["image_url"]`. */
  datatype Record = Record(category: string, count: int, imageUrl: string)

  /** `f"how many {label} are in the image?"`. */
  function Question(category: string): string {
    "how many " + category + " are in the image?"
  }

  /** The item put together for a training row whose image was fetched and re-encoded as
      the base64 PNG `image`. */
  function ItemFor(e: Record, image: string): Item {
    Item([Message(User, Some(Question(e.category)))], Gold(e.count), Some(image))
  }

  /** The item handed out when anything in `get_next_item` raises. */
  function Fallback(): Item {
    Item([Message(User, Some("Please solve: 2 + 2 = ?"))], "<answer>4</answer>", None)
  }

  /** The fallback's gold answer is the tag format of the count 4, and reads back as "4". */
  lemma FallbackGold()
    ensures Fallback().gold == Gold(4)
    ensures Extract(Fallback().gold) == "4"
  {
    assert IntToDecimal(4) == "4";
    assert Gold(4) == "<answer>4</answer>";
    GoldRoundTrip(4);
  }

  // ---- the cursor over the training split --------------------------------------

  /** What `get_next_item` returns for the split `train` with the cursor at `iter`, when
      `fetch` maps an image address to the base64 PNG of the image there, or to `None` when
      the download, decoding or re-encoding raises. An empty split raises on `iter % 0`. */
  function Draw(train: seq<Record>, iter: nat, fetch: string -> Option<string>): Item {
    if |train| == 0 then Fallback()
    else
      var e := train[iter % |train|];
      match fetch(e.imageUrl)
      case None => Fallback()
      case Some(image) => ItemFor(e, image)
  }

  /** The cursor after one call: the increment runs right after the row is read, so only
      the division by an empty split's length keeps it from happening. */
  function Advanced(train: seq<Record>, iter: nat): nat {
    if |train| == 0 then iter else iter + 1
  }

  class PixmoCountEnv {
    /** `self.train`, the training split. */
    var train: seq<Record>
    /** `self.iter`, how many rows have been read so far. */
    var iter: nat

    /** `setup`: the split as loaded, with the cursor at its start. */
    constructor (train: seq<Record>)
      ensures this.train == train && iter == 0
    {
      this.train := train;
      iter := 0;
    }

    /** `get_next_item`. */
    method GetNextItem(fetch: string -> Option<string>) returns (item: Item)
      modifies this
      ensures train == old(train)
      ensures iter == Advanced(old(train), old(iter))
      ensures item == Draw(old(train), old(iter), fetch)
    {
      if |train| == 0 {
        item := Fallback();
        return;
      }
      var entry := train[iter % |train|];
      iter := iter + 1;
      var image := fetch(entry.imageUrl);
      if image.None? {
        item := Fallback();
        return;
      }
      item := ItemFor(entry, image.value);
    }
  }

  /** A row whose image can be fetched becomes one user turn asking for the row's label,
      a gold answer that reads back as the row's count, and the fetched image. */
  lemma DrawnItem(train: seq<Record>, iter: nat, fetch: string -> Option<string>)
    requires |train| > 0 && fetch(train[iter % |train|].imageUrl).Some?
    ensures var e := train[iter % |train|];
            var item := Draw(train, iter, fetch);
            && item.prompt == [Message(User, Some(Question(e.category)))]
            && Extract(item.gold) == IntToDecimal(e.count)
            && item.image == fetch(e.imageUrl)
  {
    GoldRoundTrip(train[iter % |train|].count);
  }

  /** An empty split, or an image that cannot be fetched, yields the fallback item. */
  lemma DrawFallsBack(train: seq<Record>, iter: nat, fetch: string -> Option<string>)
    requires |train| == 0 || fetch(train[iter % |train|].imageUrl).None?
    ensures Draw(train, iter, fetch) == Fallback()
    ensures Draw(train, iter, fetch).image.None?
  {
  }

  /** The walk is periodic: the call `|train|` calls later reads the same row. */
  lemma DrawCycles(train: seq<Record>, iter: nat, fetch: string -> Option<string>)
    ensures Draw(train, iter + |train|, fetch) == Draw(train, iter, fetch)
  {
    if |train| > 0 {
      ModShift(iter, |train|);
    }
  }

  /** The rows read by `n` calls in a row starting with the cursor at `iter`, for a split
      of `size` rows; each call advances the cursor by one. */
  function RoundIndices(iter: nat, size: nat, n: nat): (r: seq<nat>)
    requires size > 0
    ensures |r| == n
  {
    seq(n, k requires 0 <= k < n => (iter + k) % size)
  }

  /** `|train|` calls in a row, from any cursor, read every row of the split exactly once. */
  lemma RoundCoversEveryEntry(iter: nat, size: nat)
    requires size > 0
    ensures IsPermutation(RoundIndices(iter, size, size), size)
  {
    var r := RoundIndices(iter, size, size);
    forall i, j | 0 <= i < j < size
      ensures r[i] != r[j]
    {
      ModDistinct(iter, size, i, j);
    }
    forall j | 0 <= j < size
      ensures j in r
    {
      var k := ModReach(iter, size, j);
      assert r[k] == j;
    }
  }

  /** Within one round of calls from any cursor, `get_next_item` hands out the item of
      every row of the split whose image can be fetched. */
  lemma RoundDrawsRow(train: seq<Record>, iter: nat, fetch: string -> Option<string>, j: nat)
    returns (k: nat)
    requires j < |train| && fetch(train[j].imageUrl).Some?
    ensures k < |train| && Draw(train, iter + k, fetch) == ItemFor(train[j], fetch(train[j].imageUrl).value)
  {
    k := ModReach(iter, |train|, j);
  }

  // ---- asking the server for a group of answers ---------------------------------

  /** The instruction sent as the system turn. */
  const Instruction: string :=
    "You must submit your answer enclosed in <answer> tags, e.g., <answer>3</answer>"

  /** `f"data:image/png;base64,{base64_image}"`; the fallback item's missing image is
      formatted as the text `None`. */
  function ImageAddress(image: Option<string>): string {
    "data:image/png;base64," + (match image case Some(b) => b case None => "None")
  }

  /** The chat completion request: the system turn, the user turn with the question text
      and the image, and the sampling arguments `n`, `max_tokens` and `timeout`. */
  datatype Request = Request(
    system: string,
    question: Option<string>,
    imageAddress: string,
    n: int,
    maxTokens: nat,
    timeout: nat)

  function RequestFor(question: Option<string>, image: Option<string>, groupSize: int): Request {
    Request(Instruction, question, ImageAddress(image), groupSize, 512, 60)
  }

  /** A generation server, seen as the contents of the choices it returns for a request,
      or `None` when the call raises. */
  type Server = Request -> Option<seq<Option<string>>>

  /** Why `collect_trajectories` raised: the item had no prompt turn, or the server call
      failed. Neither is caught there. */
  datatype Failure = EmptyPrompt | GenerationFailed

  datatype Outcome<T> = Done(value: T) | Raised(failure: Failure)

  /** `(to_score, to_backlog)`. */
  datatype Collected = Collected(toScore: seq<Rollout>, backlog: seq<Item>)

  /** The history recorded for one choice: the question as a plain user turn, then the
      choice's content as the assistant turn. */
  function Turns(question: Option<string>, choice: Option<string>): History {
    [Message(User, question), Message(Assistant, choice)]
  }

  /** The candidates made from the server's choices, one per choice, in order. */
  function Trajectories(question: Option<string>, item: Item, choices: seq<Option<string>>): seq<Rollout> {
    seq(|choices|, i requires 0 <= i < |choices| => Rollout(Turns(question, choices[i]), item.gold, item.image))
  }

  /** One candidate per choice; each carries the item's gold answer and image, and the
      reply that `score` reads from it is exactly that choice's content. */
  lemma TrajectoriesCarryChoices(question: Option<string>, item: Item, choices: seq<Option<string>>)
    ensures |Trajectories(question, item, choices)| == |choices|
    ensures forall i | 0 <= i < |choices| ::
              && Reply(Trajectories(question, item, choices)[i].history) == choices[i]
              && Trajectories(question, item, choices)[i].gold == item.gold
              && Trajectories(question, item, choices)[i].image == item.image
  {
  }

  /** `collect_trajectories`. */
  method CollectTrajectories(item: Item, groupSize: int, server: Server) returns (out: Outcome<Collected>)
    ensures item.prompt == [] ==> out == Raised(EmptyPrompt)
    ensures item.prompt != [] ==>
              var question := item.prompt[0].content;
              match server(RequestFor(question, item.image, groupSize))
              case None => out == Raised(GenerationFailed)
              case Some(choices) => out == Done(Collected(Trajectories(question, item, choices), []))
  {
    if item.prompt == [] {
      return Raised(EmptyPrompt);
    }
    var question := item.prompt[0].content;
    var reply := server(RequestFor(question, item.image, groupSize));
    if reply.None? {
      return Raised(GenerationFailed);
    }
    var choices := reply.value;
    var toScore: seq<Rollout> := [];
    var i := 0;
    while i < |choices|
      invariant i <= |choices|
      invariant toScore == Trajectories(question, item, choices[..i])
    {
      toScore := toScore + [Rollout(Turns(question, choices[i]), item.gold, item.image)];
      i := i + 1;
    }
    assert choices[..i] == choices;
    out := Done(Collected(toScore, []));
  }

  // ---- end to end ----------------------------------------------------------------

  /** A choice that states the drawn row's count in the tags, after text without `<`, is
      rewarded by `score`. */
  lemma CorrectChoiceRewarded(train: seq<Record>, iter: nat, fetch: string -> Option<string>,
                              choices: seq<Option<string>>, i: nat, pre: string, post: string)
    requires |train| > 0 && fetch(train[iter % |train|].imageUrl).Some?
    requires i < |choices|
    requires choices[i] == Some(pre + Gold(train[iter % |train|].count) + post)
    requires forall j | 0 <= j < |pre| :: pre[j] != '<'
    ensures var item := Draw(train, iter, fetch);
            Reward(Trajectories(item.prompt[0].content, item, choices)[i]) == 1.0
  {
    var e := train[iter % |train|];
    var item := Draw(train, iter, fetch);
    var r := Trajectories(item.prompt[0].content, item, choices)[i];
    assert r == Rollout(Turns(item.prompt[0].content, choices[i]), Gold(e.count), item.image);
    CorrectCountRewarded(r.history, e.count, pre, post, item.image);
  }

  /** The fallback item rewards exactly the choices that read as 4. */
  lemma FallbackRewardsFour(choices: seq<Option<string>>, i: nat)
    requires i < |choices| && choices[i].Some?
    ensures var item := Fallback();
            (Reward(Trajectories(item.prompt[0].content, item, choices)[i]) == 1.0
             <==> Lower(Extract(choices[i].value)) == "4")
  {
    var item := Fallback();
    var r := Trajectories(item.prompt[0].content, item, choices)[i];
    TrajectoriesCarryChoices(item.prompt[0].content, item, choices);
    RewardAgainstGold(r, choices[i].value);
    FallbackGold();
    assert Lower("4") == "4";
  }
}
