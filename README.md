# Ick: a Redis priority queue with a producer and a consumer set

Ick (`lib/redis/ick.rb`) is a queue stored under one Redis key `k`. It uses three Redis keys:

- a manifest at `k` holding the string `"ick.v1"`;
- the producer set (pset), a sorted set at `k + "/ick/{" + k + "}/pset"`;
- the consumer set (cset), a sorted set at `k + "/ick/{" + k + "}/cset"`.

Five Lua scripts operate on an Ick. Each one first runs a common structural guard (`LUA_ICK_PREFIX`):

- `ickadd` folds (score, member) pairs into the pset, keeping the lower score;
- `ickreserve` moves the lowest-ranked pset members into the cset until the cset reaches a target size, then lists the first entries of the cset;
- `ickcommit` removes named members from the cset;
- `ickdel` deletes the three keys;
- `ickstats` reports sizes and extreme scores.

The Ruby methods validate arguments before calling a script. They also post-process the stats reply.

The project has these modules:

- `SortedSet` (`sorted_set.dfy`) holds the Redis sorted-set notions the scripts rely on:
  - ZRANGE order, which sorts by score and then by member;
  - the ranked listing of a set;
  - least and greatest scores;
  - the min-score fold;
  - the methods that read the first entry, the last entry, or a prefix of a ranking.
- `KeyScheme` (`key_scheme.dfy`) holds the derived key names and the hash-tag rule of the Redis Cluster Specification (section "Keys hash tags").
- `StatsReply` (`stats_reply.dfy`) holds the flat stats reply, its conversion to a hash, and the digits-only integer conversion.
- `IckSpec` (`ick_spec.dfy`) holds the pure meaning of the scripts:
  - the stored values and the guard;
  - the argument validators;
  - `AddAll`, which folds pairs into the pset;
  - `Promote`, the reserve loop;
  - `ReserveReply`;
  - the properties proved about them.
- `IckStore` (`ick_store.dfy`) has the class `Store`:
  - it holds the three keys as fields;
  - it has one method per script, and each method runs the script's own loop;
  - the Ruby wrappers `IckAdd`, `IckReserve` and `IckStats` call those methods;
  - `Exchange` models `ickexchange`. That method is not defined in `lib/redis/ick.rb`; the tests (test/redis/ick_test.rb:282-316) pin it down as commit followed by reserve, and the model defines it that way.

Redis deletes a sorted set once its last member is removed. `Store.Valid()` states this, and every method preserves it.

Where a comment and the code disagree, the model follows the code:

- `ickcommit` removes members from the consumer set (ick.rb:620), not from the producer set as ick.rb:261 and ick.rb:601 say;
- `ickadd` writes to the producer set (ick.rb:537-542), not to the consumer set as ick.rb:516 says;
- the post-processor's integer test is `/^\d+$/`, which has no sign. So a negative `_min`/`_max` stays text and goes to the float conversion; it is not read as a signed integer.

## Model

| member | source | states |
|---|---|---|
| IckSpec.Guard | lib/redis/ick.rb:389-413 | The script continues only when (a) nothing exists at the three keys, or (b) the manifest is exactly "ick.v1" and neither derived key holds a non-sorted-set; every other combination aborts. The body checks in the script's order; the ensures is the closed form. |
| IckSpec.SetNX | lib/redis/ick.rb:546 | SETNX never leaves the key missing and never overwrites an existing value; after the guard it yields the "ick.v1" manifest. |
| IckSpec.ExistingKeys | lib/redis/ick.rb:427-429 | DEL's reply is at most 3, and 0 exactly when none of the three keys exists. |
| IckSpec.Stored | lib/redis/ick.rb:539 | A written sorted set holds exactly the written members, and the key disappears exactly when they are none. |
| IckSpec.StoredMembers | lib/redis/ick.rb:582 | A key holding a non-empty sorted set, or nothing, is what storing its members gives back. |
| IckSpec.ZScore | lib/redis/ick.rb:537 | ZSCORE finds a member exactly when it is in the set, together with its score. |
| IckSpec.ValidateAdd | lib/redis/ick.rb:183-194 | ickadd's arguments are accepted exactly when there is an even number of them, with a Numeric in each score slot and a String in each member slot. An accepted argument list is the flattening of the returned pairs, and every refusal is an argument error. |
| IckSpec.ValidateReserveSize | lib/redis/ick.rb:237-242 | max_size is accepted exactly when it is a non-negative Integer, and it is then passed on unchanged. |
| IckSpec.FlattenPairs | lib/redis/ick.rb:534-536 | Reading ARGV two at a time and writing the pairs back out gives the same ARGV. |
| IckSpec.PairsFlatten | lib/redis/ick.rb:534-536 | Flattening pairs gives a well-typed ARGV, and reading it back gives the same pairs. |
| IckSpec.FlattenWellTyped | lib/redis/ick.rb:535-536 | Pair i of a flattened list lands at ARGV slots 2i (score) and 2i+1 (member). |
| IckSpec.AddNeverRaises | lib/redis/ick.rb:538-544 | Folding pairs into the pset never drops a member and never raises a score. |
| IckSpec.AddBelowEachPair | lib/redis/ick.rb:538-544 | After the fold, each added member is present with a score no greater than any score it was added with. |
| IckSpec.AddScoresFromInputs | lib/redis/ick.rb:538-544 | Every score after the fold is either the member's old score or a score it was added with. |
| IckSpec.AddKeys | lib/redis/ick.rb:538-544 | The pset afterwards holds exactly the old members plus the added ones. |
| IckSpec.AddCounts | lib/redis/ick.rb:538-547 | num_new is exactly the growth of the pset, and num_new + num_changed never exceeds the number of pairs. |
| IckSpec.PromoteStep | lib/redis/ick.rb:571-587 | While the cset is under target and the pset is not empty, one iteration removes the pset's first-ranked member and folds it into the cset at the lower score; the pset shrinks by one, which is why the loop terminates. |
| IckSpec.PromoteLowest | lib/redis/ick.rb:576-586 | An iteration moves whichever member ranks first in the pset. |
| IckSpec.PromoteStops | lib/redis/ick.rb:572-579 | The loop ends with the cset at target or the pset empty. A cset already at target is left untouched, and the loop never overfills the cset. |
| IckSpec.PromoteIdempotent | lib/redis/ick.rb:571-587 | Running the loop again on its own result changes nothing, so a second ickreserve with the same target moves nothing. |
| IckSpec.PromoteKeys | lib/redis/ick.rb:582-586 | No member of pset ∪ cset is lost or invented by reserve. |
| IckSpec.PromoteOnlyMoved | lib/redis/ick.rb:582-586 | The cset gains only members moved out of the pset: every cset member afterwards was in the cset before, or was in the pset and has left it. |
| IckSpec.PromoteKeepsConsumers | lib/redis/ick.rb:583-586 | Every member already reserved stays in the cset. |
| IckSpec.PromoteShrinks | lib/redis/ick.rb:582 | What stays in the pset is a part of the old pset with unchanged scores. |
| IckSpec.PromoteMovedScores | lib/redis/ick.rb:583-586 | A moved member ends in the cset with the lower of its cset score and its pset score. |
| IckSpec.PromoteKeptScores | lib/redis/ick.rb:583-586 | A cset member that was not moved keeps its score. |
| IckSpec.PromoteTakesLowest | lib/redis/ick.rb:576-582 | Every moved member ranks before every member left in the pset. |
| IckSpec.ReserveReplyLowest | lib/redis/ick.rb:589-594 | The reply lists min(target, \|cset\|) cset entries with their scores, ascending, with no unlisted member ranking before a listed one. A target ≤ 0 gives [] even when the cset is not empty. |
| IckSpec.RankedPair | lib/redis/ick.rb:593 | ZRANGE of two members with different scores lists the lower score first. |
| IckSpec.CommitBeforeReserve | test/redis/ick_test.rb:303-311 | Committing a and b before reserving 2 lists c then a, as the test expects. |
| IckSpec.ReserveBeforeCommit | test/redis/ick_test.rb:306-310 | In the wrong order, the reserve finds the cset full and moves nothing (its own reply is the old a and b). The commit then empties the cset, so the reply read after both is [] instead of c and a. |
| IckSpec.ExchangePromotes | test/redis/ick_test.rb:300-301 | Reserving 2 out of three added members moves the two lowest and leaves the highest. |
| IckSpec.ExchangeMovesLowest | test/redis/ick_test.rb:300-301 | The first iteration of that reserve moves the lowest member. |
| IckSpec.ExchangeMovesNext | test/redis/ick_test.rb:300-301 | The second iteration moves the next lowest member and then stops at the target. |
| IckSpec.Promote | lib/redis/ick.rb:571-587 | The reserve loop as a definition: while the cset is under target and the pset is not empty, move the pset's first-ranked member into the cset at the lower score. The Promote* lemmas state its properties. |
| IckSpec.AddPair | lib/redis/ick.rb:537-544 | One iteration of the add loop. An absent member is inserted and counted new; a strictly lower score replaces the stored one and counts as changed; otherwise nothing changes. |
| IckSpec.AddAll | lib/redis/ick.rb:534-545 | The add loop over all pairs, first to last, as a fold of AddPair. The Add* lemmas state its properties. |
| IckSpec.ReserveReply | lib/redis/ick.rb:589-594 | [] when target ≤ 0, and otherwise the first min(target, \|cset\|) entries of the cset's ZRANGE order. ReserveReplyLowest states its properties. |
| IckSpec.Pairs | lib/redis/ick.rb:534-536 | Reads an even, well-typed ARGV two slots at a time, giving half as many (score, member) pairs. |
| IckSpec.Flatten | lib/redis/ick.rb:534-536 | Writes pairs back out as [score, member, ...], twice as long. |
| KeyScheme.PsetKey | lib/redis/ick.rb:384 | The producer set's key: k + "/ick/{" + k + "}/pset". |
| KeyScheme.CsetKey | lib/redis/ick.rb:385 | The consumer set's key: k + "/ick/{" + k + "}/cset". |
| KeyScheme.HashTag | lib/redis/ick.rb:332-343 | The Redis Cluster hash tag: the text between the first '{' and the first '}' after it, when that '}' exists and the text is not empty. |
| KeyScheme.TagUntilClose | lib/redis/ick.rb:336-343 | The text before the first '}', when there is one and that text is not empty. |
| KeyScheme.HashedPart | lib/redis/ick.rb:332-346 | What the cluster hashes: the tag when there is one, and otherwise the whole key. |
| SortedSet.Precedes | lib/redis/ick.rb:593 | ZRANGE order: lower score first, and on equal scores lexicographic member order. |
| SortedSet.Ranked | lib/redis/ick.rb:468-593 | The whole set as ZRANGE 0 -1 WITHSCORES lists it: the first-ranked member, then the ranking of the rest. RankedListsSet states its properties. |
| SortedSet.LeastScore | lib/redis/ick.rb:468 | The score of ZRANGE's first entry; LeastScoreIsLeast shows it is the least score. |
| SortedSet.GreatestScore | lib/redis/ick.rb:471 | The score of ZRANGE's last entry; GreatestScoreIsGreatest shows it is the greatest score. |
| StatsReply.Decimal | lib/redis/ick.rb:470-507 | `tostring(tonumber(score))` for an integral score: an optional '-' followed by the decimal digits without leading zeros. |
| StatsReply.IsExtremeName | lib/redis/ick.rb:147 | A name that matches /_min$/ or /_max$/. |
| StatsReply.Converted | lib/redis/ick.rb:149 | An all-digit string becomes to_i of it, and any other string is left for to_f. ReportedScore states what this does to a printed score. |
| IckStore.Expected | lib/redis/ick.rb:453-508 | The value the stats script reports for each name: key, ver, the three sizes, each set's min/max when that set is not empty, and total_min/total_max when either set is not empty. Every other name is absent. |
| IckStore.Head | lib/redis/ick.rb:458-464 | The reply's fixed head: key, ver, cset_size, pset_size, total_size = cset + pset. |
| IckStore.Extremes | lib/redis/ick.rb:467-484 | A set's min and max score as decimal text, in that order, only when the set is not empty. |
| IckStore.Overall | lib/redis/ick.rb:485-508 | total_min or total_max over both sets as decimal text, only when either set is not empty. |
| IckStore.Store.Valid | lib/redis/ick.rb:582 | Neither derived key holds an empty sorted set, because Redis deletes a sorted set when its last member is removed. Every method preserves this. |
| IckStore.Store.constructor | lib/redis/ick.rb:382-388 | A store holds whatever Redis has at the key and the two derived keys. |
| IckStore.Store.Add | lib/redis/ick.rb:527-548 | Its loop keeps the fold of the pairs read so far equal to the current pset and counters. When the guard fails, the reply is an error and nothing changes; an odd ARGV is likewise refused and changes nothing. Otherwise the reply is (num_new, num_changed) of AddAll, the pset is the folded set, the cset is unchanged, and the manifest exists. |
| IckStore.Store.Reserve | lib/redis/ick.rb:569-595 | Its loop keeps Promote of the current sets equal to the final queue, and the pset shrinks every iteration. When the guard fails, nothing changes. Otherwise the new pset and cset are Promote's result, the manifest exists, and the reply is ReserveReply of the new cset. |
| IckStore.Store.Commit | lib/redis/ick.rb:613-623 | When the guard fails, nothing changes. Otherwise the manifest exists even when no members are named, the pset is untouched, the cset loses exactly the named members, and the reply counts the named members that were in the cset, so repeats and non-members add 0. |
| IckStore.Store.RemoveEach | lib/redis/ick.rb:618-622 | Its loop keeps the cset equal to the old cset minus the members named so far, and the count equal to how many of those were present. |
| IckStore.Store.Del | lib/redis/ick.rb:427-429 | When the guard fails, nothing changes. Otherwise all three keys are gone, and the reply is how many of them existed: 0 exactly when there was no Ick. |
| IckStore.Store.Stats | lib/redis/ick.rb:452-510 | When the guard fails, the reply is an error; with no manifest it is nil. Otherwise it reports each name exactly as Expected gives it: key, ver, the three sizes with total = pset + cset, the min/max of each set only when that set is not empty, and total_min/total_max over both sets when either is not empty. Every _min/_max value is text. |
| IckStore.Store.Exchange | test/redis/ick_test.rb:282-316 | ickexchange is commit followed by reserve: the result is Promote applied to the pset and to the cset minus the named members. |
| IckStore.Store.IckAdd | lib/redis/ick.rb:179-200 | Invalid arguments are refused before any change. Otherwise the reply is LUA_ICKADD's fold of the validated pairs. |
| IckStore.Store.IckReserve | lib/redis/ick.rb:233-259 | max_size defaults to 0. A max_size that is not a non-negative Integer is refused before any change. Otherwise the result is LUA_ICKRESERVE's. |
| IckStore.Store.IckStats | lib/redis/ick.rb:102-126 | The hash has exactly the names the script reports. Other values are as reported. A _min/_max score s comes back as the integer s when s ≥ 0, and as the text of s for the float conversion when s < 0. |
| IckStore.LeastOfBoth | lib/redis/ick.rb:485-492 | total_min is the least score held by either set. |
| IckStore.GreatestOfBoth | lib/redis/ick.rb:497-504 | total_max is the greatest score held by either set. |
| IckStore.HeadExtremesReport | lib/redis/ick.rb:458-508 | The reply built from the head, the per-set extremes and the totals, read back by name, reports exactly the Expected statistics. |
| IckStore.ReplyExtremesAreText | lib/redis/ick.rb:469-507 | Every _min/_max value in the reply is a string. |
| IckStore.HeadIsNotExtreme | lib/redis/ick.rb:458-464 | None of the head's names ends in _min or _max. |
| IckStore.LookupHead | lib/redis/ick.rb:458-464 | The head reports key, ver and the three sizes, and nothing else. |
| IckStore.LookupExtremes | lib/redis/ick.rb:467-484 | The per-set part reports the min/max of a set only when that set is not empty. |
| IckStore.LookupTotalMin | lib/redis/ick.rb:493-496 | total_min is reported when either set is non-empty. |
| IckStore.LookupTotalMax | lib/redis/ick.rb:505-508 | total_max is reported when either set is non-empty. |
| IckStore.ExtremeScore | lib/redis/ick.rb:470-507 | Each _min/_max statistic is the decimal text of some score. |
| StatsReply.Postprocess | lib/redis/ick.rb:128-152 | nil stays nil. The hash keeps, for each name, the value of its last occurrence in the flat reply, and nothing else. Each _min/_max value is replaced by its digits-only conversion; the other values are untouched. |
| StatsReply.ReportedScore | lib/redis/ick.rb:147-150 | A printed non-negative score reads back as the same integer, and a negative one fails `/^\d+$/` and stays text. |
| StatsReply.DigitsRoundTrip | lib/redis/ick.rb:149 | The decimal digits of n are all digits, and to_i reads back n. |
| StatsReply.Lookup | lib/redis/ick.rb:133 | Hash[*reply] finds only values paired with the name in the reply. |
| StatsReply.LookupFindsLast | lib/redis/ick.rb:133 | A name is in the hash exactly when it occurs in the reply, and its value is that of its last occurrence. |
| StatsReply.LookupAppend | lib/redis/ick.rb:133 | Appending a pair makes it the value for its name and hides nothing else. |
| StatsReply.LookupConcat | lib/redis/ick.rb:133 | A name found in a later part of the reply takes that part's value. |
| StatsReply.TextConcat | lib/redis/ick.rb:469-507 | Appending string values to a reply whose _min/_max values are strings keeps that true. |
| KeyScheme.DerivedKeysDistinct | lib/redis/ick.rb:384-385 | The manifest key, pset key and cset key are pairwise different. |
| KeyScheme.Colocated | lib/redis/ick.rb:332-346 | For a non-empty name without braces, the name has no hash tag, and both derived keys have the name as their tag, so all three keys hash the same text. |
| KeyScheme.DerivedTag | lib/redis/ick.rb:341-343 | The tag of k + "/ick/{" + k + "}/" + suffix is k. |
| KeyScheme.TagBetween | lib/redis/ick.rb:336-343 | A key with no '{' before "{tag}" has that tag. |
| KeyScheme.Find | lib/redis/ick.rb:336-339 | The first occurrence of a character, as the hash-tag rule uses it. |
| KeyScheme.FindAfter | lib/redis/ick.rb:336-339 | A prefix without the character shifts its first occurrence by the prefix length. |
| SortedSet.Lowest | lib/redis/ick.rb:576-581 | ZRANGE 0 0 returns the first entry of the ranking. |
| SortedSet.Highest | lib/redis/ick.rb:471 | ZRANGE -1 -1 returns the last entry of the ranking. |
| SortedSet.RangeHead | lib/redis/ick.rb:592-593 | ZRANGE 0 target-1 returns the first min(target, \|cset\|) ranked entries. |
| SortedSet.RankedListsSet | lib/redis/ick.rb:593 | ZRANGE lists every member once, with its score, in strictly ascending (score, member) order. |
| SortedSet.RankedStep | lib/redis/ick.rb:576-582 | The ranking is the first member followed by the ranking of the rest. |
| SortedSet.Fold | lib/redis/ick.rb:583-586 | Folding a member into a set adds it with the lower of its old and new scores and leaves the other members alone. |
| SortedSet.LeastScoreIsLeast | lib/redis/ick.rb:468 | The first ranked score is the least score of the set. |
| SortedSet.GreatestScoreIsGreatest | lib/redis/ick.rb:471 | The last ranked score is the greatest score of the set. |
| SortedSet.LastIsLast | lib/redis/ick.rb:471 | The last entry of the ranking is the member every other member precedes. |
| SortedSet.FirstExists | lib/redis/ick.rb:576 | A non-empty set has a first-ranked member. |
| SortedSet.FirstUnique | lib/redis/ick.rb:576 | The first-ranked member is unique. |
| SortedSet.PrecedesTotal | lib/redis/ick.rb:593 | ZRANGE order ranks any two distinct members one way or the other. |
| SortedSet.PrecedesTransitive | lib/redis/ick.rb:593 | ZRANGE order is transitive. |
| SortedSet.PrecedesAsymmetric | lib/redis/ick.rb:593 | ZRANGE order is strict. |

## Left out

- The Redis transport is not modelled: `_eval`, EVALSHA/EVAL, and the atomicity of a script. Each script is one sequential method on one store, so there is no concurrency.
- Pipelining (the `Redis::Future#value` patch), the statsd metrics and the constructor's duck typing are not modelled; they add no queue behaviour.
- Floating point is not modelled. Scores are integers, and `_floatify`, `to_f` and infinities are left out. A value that fails the digits-only test is kept as its text (`Float(text)`).
- One `Numeric(n)` argument stands for both Ruby tests: `is_a? Numeric` for scores (ick.rb:188) and `is_a?(Integer)` for max_size (ick.rb:237). Because Ruby Floats are not modelled, a Float max_size, which Ruby refuses, cannot be written down in the model.
- Lua's `tostring` prints large scores with `%.14g`; the model prints every integer score in plain decimal.
- ZRANGE compares members bytewise (memcmp); the model compares characters, which gives the same order for the ASCII members the tests use.
- Error text is not modelled. Every guard failure is one `Corrupt` error. That covers the WRONGTYPE error of GET on a non-string manifest. It also covers the guard's messages, which concatenate the undefined `ick_ver_key` and so raise a Lua error instead of an error reply.
- IckStore.Store.Add: the ARGV is well typed by requirement, as the Ruby wrapper ensures. Lua `tonumber` failing on a non-numeric score in the middle of the loop is not modelled.
- The Ruby `ick_key.is_a?(String)` checks and the `ickcommit`/`ickdel` Ruby wrappers are not modelled. Keys are strings by type, and those wrappers only add that check before calling the script.
- IckStore.Store.Reserve: the reply is a sequence of (member, score) entries, not the flat [member, score, ...] list of strings that Ruby pairs up.
- The stats fields `pset_key`/`cset_key` are not modelled, because the script does not emit them; `KeyScheme` covers those key names.
- Keys containing braces and RedisLabs Enterprise Cluster hashing are not modelled: that hashing rule is not in the repository. `KeyScheme.Colocated` requires a brace-free name.
- The Lua `unpack()` limit tests are not modelled; they test the Redis runtime.
- `lib/redis/ick/version.rb` is not modelled; it holds only a version constant.
