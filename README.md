# PixmoCountEnv, modelled in Dafny

`PixmoCountEnv` is a reinforcement-learning environment. It asks a vision model how many
objects of a given kind an image of the pixmo-count training split shows. It then rewards
each answer by whether the count between `<answer>` tags matches the gold count.

This project models the environment's three working parts from
`environments/multimodal_dpo/pixmo_count.py` and proves properties of them.

- **Answers (`answer_tag.dfy`, `text.dfy`).**
  - The answer is read with `re.search(r"<answer>\s*(.*?)\s*</answer>", s, re.IGNORECASE)`. The result is the match's group, stripped, or the whole text, stripped, when nothing matches.
  - The regular expression is stated declaratively. `MatchAt` is the set of ways the pattern can match at a start position. `Leftmost` is the match that Python's backtracking engine picks: the leftmost start, then the longest leading `\s*`, then the shortest lazy group.
  - The computing scanner `Extract` is proved to return exactly that answer (`ExtractIsTheAnswer`).
  - Extraction is proved to invert the gold formatting `f"<answer>{count}</answer>"` (`GoldRoundTrip`).
- **Scoring (`scoring.dfy`).**
  - The reward is +1.0 or -1.0 (`Reward`, `JudgeMeaning`).
  - Candidates whose loss mask has fewer than 10 trainable positions are dropped.
  - The walk stops once `group_size` candidates are kept.
  - The shuffle is a permutation given as input.
  - The loop of `score` (`AssembleBatch`) is proved equal to the specification functions `Kept`, `Selected` and `BatchOf`. Lemmas about those functions give the batch's guarantees:
    - the four lists are aligned;
    - every kept candidate passes the filter, and no dropped one appears;
    - the batch follows the shuffled order without repeats;
    - its size is `min(group_size, passing)` for `group_size >= 1`, and at most one otherwise.
- **Items and trajectories (`pixmo_count.dfy`, `trajectory.dfy`, `arith.dfy`).**
  - The round-robin cursor `self.iter` is a field of the class `PixmoCountEnv`. `GetNextItem` is proved against the function `Draw`.
  - A fetch failure gives the fixed fallback item, and the cursor has still advanced. An empty split gives the fallback too, with the cursor unchanged.
  - `|train|` consecutive calls read every row exactly once (`RoundCoversEveryEntry`), and within one round every row whose image can be fetched is handed out as its item (`RoundDrawsRow`).
  - `CollectTrajectories` turns the server's choices into one candidate per choice.

The tokenizer, the image fetch and the generation server are function parameters.

The user turn always carries an image address (lines 85-88). For the fallback item, which has no image, the address ends in the text `None` (`ImageAddress`).

## Model

| member | source | states |
|---|---|---|
| Text.Lower | environments/multimodal_dpo/pixmo_count.py:139 | `.lower()` keeps the length, leaves no capital letter, and changes each character only in case |
| AnswerTag.LowerEqIffCiEqual | environments/multimodal_dpo/pixmo_count.py:139 | comparing the lower-cased texts, as the reward does, is the same relation as the case-insensitive comparison `re.IGNORECASE` makes for the tags |
| Text.TrimStartDropsSpace | environments/multimodal_dpo/pixmo_count.py:133 | `lstrip` keeps a suffix whose first character is not whitespace, and everything it drops is whitespace |
| Text.TrimEndDropsSpace | environments/multimodal_dpo/pixmo_count.py:133 | `rstrip` keeps a prefix whose last character is not whitespace, and everything it drops is whitespace |
| Text.Strip | environments/multimodal_dpo/pixmo_count.py:133 | `strip` returns text with whitespace at neither end |
| Text.StripIsSlice | environments/multimodal_dpo/pixmo_count.py:133 | `strip` returns a slice `s[a..b]` with only whitespace before `a` and after `b` |
| Text.StripTrimmed | environments/multimodal_dpo/pixmo_count.py:137 | stripping already trimmed text changes nothing |
| Text.IntToDecimal | environments/multimodal_dpo/pixmo_count.py:42 | the f-string of an integer is digits, with a leading `-` only for negatives and no leading zero except for 0 itself (no 4300-digit limit; see Left out) |
| Text.NatToDecimalValue | environments/multimodal_dpo/pixmo_count.py:42 | the digits of a natural number read back as that number |
| Text.DecimalRoundTrip | environments/multimodal_dpo/pixmo_count.py:42 | parsing the printed form of any integer gives the integer back |
| Text.LowerDecimal | environments/multimodal_dpo/pixmo_count.py:139 | lower-casing a printed count leaves it unchanged |
| AnswerTag.SpaceRunIsMaximal | environments/multimodal_dpo/pixmo_count.py:132 | the scanner's `\s*` run consists of whitespace and stops at the end or at a non-space |
| AnswerTag.MatchLenFound | environments/multimodal_dpo/pixmo_count.py:132 | the lazy group the scanner finds is single-line, is followed by `\s*</answer>`, and no shorter group is |
| AnswerTag.MatchLenNotFound | environments/multimodal_dpo/pixmo_count.py:132 | when the scanner finds no group, no single-line group of any length is followed by `\s*</answer>` |
| AnswerTag.GreedySkip | environments/multimodal_dpo/pixmo_count.py:132 | any match at a start can be transformed into one that takes the whole leading whitespace run |
| AnswerTag.NoLongerSkip | environments/multimodal_dpo/pixmo_count.py:132 | no match takes more leading whitespace than there is |
| AnswerTag.NoShorterGroup | environments/multimodal_dpo/pixmo_count.py:132 | with the leading run maximal, no lazy group shorter than the scanner's matches |
| AnswerTag.MatchHereFound | environments/multimodal_dpo/pixmo_count.py:132 | a scanner hit at a start is a match there, with a maximal skip and a minimal group among all matches there |
| AnswerTag.MatchHereNotFound | environments/multimodal_dpo/pixmo_count.py:132 | a scanner miss at a start means the pattern has no match there at all |
| AnswerTag.FindFromNotFound | environments/multimodal_dpo/pixmo_count.py:132 | a miss from a position means no match starts at or after it |
| AnswerTag.FindFromFound | environments/multimodal_dpo/pixmo_count.py:132 | a hit from a position is the first start with a match, with the backtracking engine's choice of skip and group |
| AnswerTag.SearchIsLeftmost | environments/multimodal_dpo/pixmo_count.py:132 | `re.search` finds nothing exactly when no start matches; otherwise it returns the leftmost match the engine prefers |
| AnswerTag.LeftmostUnique | environments/multimodal_dpo/pixmo_count.py:132 | the preferred match is unique |
| AnswerTag.LeftmostGroupIsTrimmed | environments/multimodal_dpo/pixmo_count.py:132-133 | the preferred match's group has no whitespace at either end, so the `strip()` after it removes nothing |
| AnswerTag.Extract | environments/multimodal_dpo/pixmo_count.py:132-133 | the extracted answer is trimmed and no longer than the text |
| AnswerTag.ExtractWithoutMatch | environments/multimodal_dpo/pixmo_count.py:133 | with no match, the answer is the whole text stripped |
| AnswerTag.ExtractLeftmost | environments/multimodal_dpo/pixmo_count.py:132-133 | with a match, the answer is the preferred match's group |
| AnswerTag.ExtractIsTheAnswer | environments/multimodal_dpo/pixmo_count.py:132-133 | a string is the answer the regular expression defines for a text exactly when `Extract` returns it |
| AnswerTag.ExtractWithoutTag | environments/multimodal_dpo/pixmo_count.py:133 | a text without `<` is answered by its stripped self |
| AnswerTag.SkipToTag | environments/multimodal_dpo/pixmo_count.py:132 | the search passes over characters other than `<` without finding a match |
| AnswerTag.MatchHereTagged | environments/multimodal_dpo/pixmo_count.py:132 | an `<answer>` followed by a value that is trimmed, on one line and free of `<`, and then `</answer>`, matches with exactly that value as the group |
| AnswerTag.ExtractTagged | environments/multimodal_dpo/pixmo_count.py:132-133 | the first tag pair in a text with no earlier `<` gives the value between them, when that value is trimmed, on one line and free of `<` |
| AnswerTag.ExtractWrapped | environments/multimodal_dpo/pixmo_count.py:132-133 | a value that is trimmed, on one line and free of `<`, wrapped in the tags after text without `<`, is extracted back, whatever follows |
| AnswerTag.GoldRoundTrip | environments/multimodal_dpo/pixmo_count.py:42 | extracting from the gold string `<answer>{count}</answer>` gives exactly the decimal text of `count` |
| Scoring.Reward | environments/multimodal_dpo/pixmo_count.py:148 | every score is +1.0 or -1.0 |
| Scoring.JudgeMeaning | environments/multimodal_dpo/pixmo_count.py:130-141 | scoring fails exactly when there is no reply text; the candidate is correct exactly when the answers the regular expression defines for reply and gold agree ignoring case |
| Scoring.RewardIff | environments/multimodal_dpo/pixmo_count.py:139-148 | +1.0 exactly for a correct candidate, -1.0 both for a wrong one and for a failed scoring |
| Scoring.RewardAgainstGold | environments/multimodal_dpo/pixmo_count.py:131-139 | with a reply present, +1.0 exactly when the extracted answers agree ignoring case |
| Scoring.CorrectCountRewarded | environments/multimodal_dpo/pixmo_count.py:130-139 | a reply that states the gold count in the tags, after text without `<`, is rewarded |
| Scoring.WrongCountPenalised | environments/multimodal_dpo/pixmo_count.py:130-139 | a reply that states another count in the tags, after text without `<`, is penalised, whatever follows |
| Scoring.MissingReplyPenalised | environments/multimodal_dpo/pixmo_count.py:140-141 | a missing reply is a failed scoring and gets -1.0 instead of raising |
| Scoring.RewardExampleTagged | environments/multimodal_dpo/pixmo_count.py:130-139 | `"The count is <answer>7</answer>."` against the gold `<answer>7</answer>` scores +1.0 |
| Scoring.RewardExampleOther | environments/multimodal_dpo/pixmo_count.py:130-139 | `"<answer>8</answer>"` against the gold `<answer>7</answer>` scores -1.0 |
| Scoring.UntaggedReplyRead | environments/multimodal_dpo/pixmo_count.py:133 | a reply without any `<` is compared whole, after stripping |
| Scoring.UntaggedCountPenalised | environments/multimodal_dpo/pixmo_count.py:130-139 | a reply without any `<` that, stripped and lower-cased, is not the count's decimal text, such as `seven` for 7, scores -1.0 |
| Scoring.TrainableCountsPositions | environments/multimodal_dpo/pixmo_count.py:143 | the count of mask entries other than -100 is the number of trainable positions |
| Scoring.KeptPasses | environments/multimodal_dpo/pixmo_count.py:143-144 | every candidate that survives the filter has at least 10 trainable positions |
| Scoring.KeptIncreasing | environments/multimodal_dpo/pixmo_count.py:125 | survivors are listed in scanning order, none twice |
| Scoring.KeptComplete | environments/multimodal_dpo/pixmo_count.py:143-144 | every candidate that passes the filter survives it |
| Scoring.KeptPrefix | environments/multimodal_dpo/pixmo_count.py:125 | scanning further only appends survivors |
| Scoring.KeptCount | environments/multimodal_dpo/pixmo_count.py:143-144 | the number of survivors is the number of passing candidates |
| Scoring.SelectedIff | environments/multimodal_dpo/pixmo_count.py:143-155 | a candidate is in the batch exactly when it passes the filter and fewer than `max(group_size, 1)` passing candidates come before it |
| Scoring.FilteredOut | environments/multimodal_dpo/pixmo_count.py:143-144 | a candidate below the threshold never enters the batch, whatever its reward |
| Scoring.SelectedIsSubsequence | environments/multimodal_dpo/pixmo_count.py:124-125 | the batch follows the shuffled order strictly increasingly, and every member passes the filter |
| Scoring.SelectedSize | environments/multimodal_dpo/pixmo_count.py:154-155 | the batch holds `min(group_size, passing)` candidates; for `group_size` below 1 the loop stops after the first |
| Scoring.BatchOf | environments/multimodal_dpo/pixmo_count.py:146-152 | the four lists are aligned, and entry i of tokens, masks and images comes from the i-th kept candidate |
| Scoring.BatchOfScores | environments/multimodal_dpo/pixmo_count.py:148 | entry i of the scores is the reward of the i-th kept candidate |
| Scoring.BatchOfSnoc | environments/multimodal_dpo/pixmo_count.py:146-152 | keeping one more candidate appends its tokens, masks, score and image |
| Scoring.SelectedWhenFull | environments/multimodal_dpo/pixmo_count.py:154-155 | once `max(group_size, 1)` are kept, the walk can stop: the rest add nothing |
| Scoring.SelectedBatch | environments/multimodal_dpo/pixmo_count.py:119-157 | the returned batch is aligned, holds `min(max(group_size, 1), passing)` entries, every mask has at least 10 trainable positions, and every score is ±1.0 |
| Scoring.AssembleBatch | environments/multimodal_dpo/pixmo_count.py:125-157 | the loop with `continue` and `break` builds exactly the batch of the selected candidates |
| Scoring.Inverse | environments/multimodal_dpo/pixmo_count.py:124 | each slot of the inverse points back to where the permutation sent it |
| Scoring.InverseIsPermutation | environments/multimodal_dpo/pixmo_count.py:124 | the inverse of a permutation is a permutation |
| Scoring.ShuffleUndone | environments/multimodal_dpo/pixmo_count.py:124 | shuffling loses and duplicates nothing: the inverse shuffle restores the list |
| Scoring.NoDuplicateCandidates | environments/multimodal_dpo/pixmo_count.py:124-155 | the batch never holds the same original candidate twice |
| Scoring.Shuffle | environments/multimodal_dpo/pixmo_count.py:124 | `random.shuffle` permutes the caller's list in place by the drawn permutation |
| Scoring.Score | environments/multimodal_dpo/pixmo_count.py:118-157 | the list is shuffled in place, and the batch is the one built from the selected candidates of the shuffled list |
| Arith.ModShift | environments/multimodal_dpo/pixmo_count.py:34 | adding the split's length to the cursor reads the same row |
| Arith.ModDistinct | environments/multimodal_dpo/pixmo_count.py:34 | cursors less than the split's length apart read different rows |
| Arith.ModReach | environments/multimodal_dpo/pixmo_count.py:34 | every row is read within the split's length of calls |
| PixmoCount.FallbackGold | environments/multimodal_dpo/pixmo_count.py:63 | the fallback's gold answer is the gold format of 4, and extracts to `4` |
| PixmoCount.PixmoCountEnv.constructor | environments/multimodal_dpo/pixmo_count.py:29-30 | the environment starts at the beginning of the split |
| PixmoCount.PixmoCountEnv.GetNextItem | environments/multimodal_dpo/pixmo_count.py:32-63 | the split is unchanged, the cursor advances by one unless the split is empty, and the item is the one `Draw` specifies |
| PixmoCount.DrawnItem | environments/multimodal_dpo/pixmo_count.py:34-53 | for a fetched image, the item is the question about row `iter % len(train)`'s label, a gold answer that extracts to the row's count, and the image |
| PixmoCount.DrawFallsBack | environments/multimodal_dpo/pixmo_count.py:54-63 | an empty split or a failed fetch yields the fixed fallback item, with no image |
| PixmoCount.DrawCycles | environments/multimodal_dpo/pixmo_count.py:34-35 | the item drawn `len(train)` calls later is the same |
| PixmoCount.RoundCoversEveryEntry | environments/multimodal_dpo/pixmo_count.py:34-35 | `len(train)` calls in a row, from any cursor, read every row exactly once |
| PixmoCount.RoundDrawsRow | environments/multimodal_dpo/pixmo_count.py:34-53 | from any cursor, one of the next `len(train)` calls hands out the item of any given row whose image can be fetched |
| PixmoCount.TrajectoriesCarryChoices | environments/multimodal_dpo/pixmo_count.py:100-104 | one candidate per choice, each with the item's gold and image, and the reply `score` reads back from it is that choice's content |
| PixmoCount.CollectTrajectories | environments/multimodal_dpo/pixmo_count.py:65-106 | an item without a prompt turn raises; a failed server call raises; otherwise the candidates are one per choice, in order, and the backlog is empty |
| PixmoCount.CorrectChoiceRewarded | environments/multimodal_dpo/pixmo_count.py:100-148 | a choice that states the drawn row's count in the tags, after text without `<`, is rewarded by `score` |
| PixmoCount.FallbackRewardsFour | environments/multimodal_dpo/pixmo_count.py:56-63 | for the fallback item, a choice is rewarded exactly when its answer reads as `4` |

## Left out

- The image download, PIL decoding, PNG re-encoding and base64 step (lines 45-51) are I/O and foreign libraries. They are the parameter `fetch`, which gives the base64 PNG or `None` for any exception on that path. Because `fetch` is a function, the model assumes the same address always gives the same result.
- The `chat_completion` call (lines 93-98) is a network client. It is the parameter `server`: the list of choice contents for a request, or `None` when the call raises. The number of choices is whatever the server returns; nothing ties it to `n`.
- `tokenize_for_trainer` (line 126) is a foreign utility. It is the parameter `tok`. Its own exceptions are not modelled.
- The randomness of `random.shuffle` (line 124) is not modelled. The permutation it draws is an input.
- Loading the dataset in `setup` (lines 26-30) is I/O. The constructor takes the split as a sequence of rows. Rows with missing keys, whose `KeyError` would also lead to the fallback, are not modelled.
- The layout of the chat messages is modelled only as the fields of `Request`: the system instruction, the question, the image address, `n`, `max_tokens` and `timeout`. The JSON rendering is not modelled.
- `config_init`, the environment-variable check, `sys.exit` and `cli` (lines 159-191) are configuration plumbing.
- `postprocess_histories` and `evaluate` are empty stubs.
- async scheduling and `traceback.print_exc` are not modelled.
- `str.lower`, `str.strip` and `re.IGNORECASE` are modelled on ASCII only: whitespace is the ASCII characters `str.isspace` accepts, and case folding is A-Z to a-z.
- The `except` around `item[2]` (lines 149-152) cannot fire for the three-element candidates `collect_trajectories` builds, so the model always appends the candidate's image.
- IntToDecimal: does not model Python's limit on printing integers. Python raises `ValueError` for an `int` of more than 4300 digits. At line 42 that would send `get_next_item` to the fallback item, with the cursor already advanced. The model prints a count of any size, so `Draw` never falls back for this reason.
- `ScoredDataGroup`'s other keys are not modelled. Its four lists are the fields of `ScoredBatch`.
- AssembleBatch: takes the scoring rule as a parameter, and `Score` passes `Reward`. The per-call ensures therefore relates the batch to `BatchOf` for any rule, and the ±1.0 property of the scores is the lemma `SelectedBatch`.
