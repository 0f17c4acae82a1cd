/**
 * The values that flow through the environment: chat turns, the item handed out by
 * `get_next_item`, and the candidate trajectories that `collect_trajectories` produces
 * and `score` consumes.
 */
module Trajectory {
  import opened Wrappers

  datatype Role = System | User | Assistant

  /** One chat turn `{"role": ..., "content": ...}`. The content is `None` when the
      server returns a choice without text (`choice.message.content is None`). */
  datatype Message = Message(role: Role, content: Option<string>)

  /** A conversation in turn order (the source's `GameHistory`). */
  type History = seq<Message>

  /** An item `(prompt, gold_answer, base64_image)`: the prompt turns, the gold answer in
      its wire format, and the base64 PNG, absent for the fallback item. */
  datatype Item = Item(prompt: seq<Message>, gold: string, image: Option<string>)

  /** A candidate trajectory `(history, gold, base64_image)` waiting to be scored. */
  datatype Rollout = Rollout(history: History, gold: string, image: Option<string>)

  /** What `tokenize_for_trainer` returns: token ids and the parallel loss mask, in which
      the ignore index marks positions that do not count for training. */
  datatype Tokenized = Tokenized(tokens: seq<int>, masks: seq<int>)
}
