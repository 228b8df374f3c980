# cloudTrailReduce in Dafny

cloudTrailReduce replays one day of CloudTrail audit logs and writes the IAM
policy the recorded callers exercised. This project models its aggregation core,
which lives in `cloudTrailReduce.py`:

- `munge_record` turns one event record into a policy object with one statement,
  or skips the record, or raises.
- `parse_policy_template` folds that object into the growing list of policy
  objects. It keys on the principal ARN, merges actions (duplicate-free, re-sorted)
  and merges the first incoming resource.
- `run` builds the S3 key prefix from the date, then munges and folds every record
  of every archive in order, starting from an empty list.

The files are:

| file | contents |
|---|---|
| `wrappers.dfy` | `Option` and `Result` |
| `ordering.dfy` | Python's string order `<=` (lexicographic by code point), `sorted` as an insertion sort, and the proof that it returns the one ascending permutation |
| `strings.dfy` | `str.split` on one character, which keeps empty pieces, and its inverse `join` |
| `records.dfy` | event records, policy objects, and `munge_record` as the function `Munge` and the looping method `MungeRecord` |
| `template.dfy` | `parse_policy_template`: the specification function `FoldSpec`, its lemmas, and the class `PolicyTemplate` whose `Fold` method updates the list step by step |
| `run.dfy` | the bucket prefix, the run as the specification `RunSpec`, and the `Run` method with its loops |

A policy object is modelled as `Policy(version, statement)`. The program always
builds its `Statement` list with exactly one element and only ever reads `[0]`, so
the list is collapsed to that element. `Principal.AWS` stays a list, so the match
test of line 107 (`AWS[0] in record's AWS`) is modelled as written.

The principal is the whole `userIdentity.arn` string. The code does not collapse
ARNs containing `root` and does not extract a `/`-separated segment, though some
descriptions of the tool say it does. The model follows the code.
`RunPrincipalsFirstSeen` states the consequence: the output has one policy per
distinct ARN, in first-seen order.

The `Resource` list of a freshly munged policy is in source order. It is neither
sorted nor free of duplicates. It becomes sorted the first time a merge adds to it.

## Model

| member | source | states |
|---|---|---|
| Records.Munge | cloudTrailReduce.py:59-94 | Error exactly when `eventName` or `eventSource` is missing; skip exactly when those are present and `userIdentity.arn` is missing; otherwise one statement with version `2012-10-17`, effect `Allow`, `AWS == [arn]` and the single action `service:eventName`, carrying `Resource` exactly when the record has `resources`, with the truncated ARN list |
| Records.MungeRecord | cloudTrailReduce.py:59-94 | The procedure that grows the `Resource` list entry by entry until an entry lacks `ARN` returns exactly `Munge(e)` |
| Records.ArnOf | cloudTrailReduce.py:66 | No contract of its own: `userIdentity.arn`, absent when either key is missing; described by `Records.Munge`, whose skip case is exactly `ArnOf(e).None?` |
| Records.ServiceOf | cloudTrailReduce.py:63-64 | No contract of its own: `eventSource.split(".")[0]`; described by `Records.ServiceOfIsTextBeforeFirstDot` |
| Records.ServiceOfIsTextBeforeFirstDot | cloudTrailReduce.py:63-64 | The service is a prefix of `eventSource`, holds no `.`, and is followed by a `.` or by the end of the source: the text before the first dot, or the whole source |
| Records.ResourceArns | cloudTrailReduce.py:83-89 | The `Resource` list holds the `ARN` values in entry order, stops at the first entry without `ARN`, and is `[]` for an empty `resources` |
| Records.TruncatedArnsUnique | cloudTrailReduce.py:86-89 | Only one list meets that description, so the loop's result is determined by the entries |
| Template.FoldSpec | cloudTrailReduce.py:100-124 | Folding None returns the template unchanged; every policy keeps a principal; a call adds at most one policy |
| Template.MergeMatching | cloudTrailReduce.py:106-121 | No contract of its own: the scan that merges into every matching policy without stopping; described by `Template.FoldFrame` and `Template.FoldUpdatesTheOneMatch` |
| Template.Merge | cloudTrailReduce.py:108-121 | No contract of its own: the action merge, then the resource merge, into one policy; described by `Template.MergeActionsSpec`, `Template.MergeResourcesSpec` and `Template.MergeIdempotent` |
| Template.MergeActions | cloudTrailReduce.py:109-113 | No contract of its own; described by `Template.MergeActionsSpec` |
| Template.MergeResources | cloudTrailReduce.py:114-121 | No contract of its own; described by `Template.MergeResourcesSpec` |
| Template.FoldFrame | cloudTrailReduce.py:100-124 | One call appends the record at the end exactly when its principal is new (including into an empty template), leaves every policy of another principal unchanged, and merges every policy of the same principal |
| Template.MatchesIsSamePrincipal | cloudTrailReduce.py:107 | For a munged record, the test `AWS[0] in record's AWS` is equality of principals |
| Template.FoldPrincipals | cloudTrailReduce.py:100-124 | The principal list after a call is the old one, with the record's principal appended when it was absent |
| Template.FoldPreservesWellFormed | cloudTrailReduce.py:100-124 | Unique principals, one ARN per policy, and sorted duplicate-free actions are kept by every call |
| Template.FoldUpdatesTheOneMatch | cloudTrailReduce.py:106-121 | Although the scan does not break, with unique principals a call replaces exactly the one matching policy by its merge |
| Template.MergeActionsSpec | cloudTrailReduce.py:109-113 | Merging an action into a sorted duplicate-free list yields a sorted duplicate-free list holding exactly the old actions and the new one, and returns the list unchanged when the action is already there |
| Template.MergeResourcesSpec | cloudTrailReduce.py:114-121 | Only the incoming first resource can join; it joins, and the list is re-sorted as a permutation of the old list plus that resource, exactly when both sides have a list, the incoming one is non-empty and the resource is new; otherwise `Resource` is unchanged, and a missing `Resource` stays missing |
| Template.FoldNeverAddsResourceKey | cloudTrailReduce.py:114-121 | A policy created without `Resource` still has none after a later call |
| Template.MergeIdempotent | cloudTrailReduce.py:108-121 | Merging the same record twice equals merging it once |
| Template.FoldIdempotent | cloudTrailReduce.py:100-124 | Folding the same record twice in a row equals folding it once |
| Template.ExampleSecondMerge | cloudTrailReduce.py:108-121 | A new action and a new single resource are both added, each list ending sorted |
| Template.ExampleSecondRecord | cloudTrailReduce.py:100-124 | The second call of the three-record example turns `[get]`,`[r1,r2]` into `[get,put]`,`[r1,r2,r3]` |
| Template.ExampleThirdRecord | cloudTrailReduce.py:100-124 | The third call keeps the known action and adds only the first of its two resources |
| Template.FirstResourceOnlyExample | cloudTrailReduce.py:100-124 | Three records of one principal with resources `[r1,r2]`, `[r3]`, `[r4,r5]` give one policy with actions `[get,put]` and resources `[r1,r2,r3,r4]`, without `r5` |
| Template.MergeInto | cloudTrailReduce.py:109-121 | The step-by-step append-and-re-sort of the action, then of the first resource, each skipped when its lookup would raise or its value is present, yields `Merge` |
| Template.PolicyTemplate.constructor | cloudTrailReduce.py:137 | The template starts empty and well formed |
| Template.PolicyTemplate.Fold | cloudTrailReduce.py:100-124 | The scan with the `match` flag leaves the list equal to `FoldSpec` of the old list and keeps a well-formed template well formed |
| Ordering.SortStringsIsTheSortedPermutation | cloudTrailReduce.py:113 | `sorted` returns the unique ascending permutation of its argument |
| Ordering.SortAddsFresh | cloudTrailReduce.py:112-113 | Appending an absent action to a duplicate-free list and sorting keeps it duplicate-free, with exactly one more member |
| Ordering.SortStrings | cloudTrailReduce.py:113 | `sorted` on a list of strings: the result is ascending and a permutation of the argument (also used at line 119) |
| Ordering.LexLe | cloudTrailReduce.py:113 | No contract of its own: Python's `<=` on strings, which `sorted` orders by; described by `Ordering.LexLeIsPythonOrder` |
| Ordering.LexLeIsPythonOrder | cloudTrailReduce.py:113 | `LexLe(a, b)` holds exactly when `a` is a prefix of `b` or `a` has the smaller character where the two first differ |
| Strings.Split | cloudTrailReduce.py:136 | `split` yields at least one piece, none containing the separator, whose join is the input |
| Strings.SplitJoin | cloudTrailReduce.py:136 | Splitting the join of separator-free pieces returns those pieces |
| Strings.SplitCount | cloudTrailReduce.py:136 | `split` yields one more piece than the input has separators |
| Strings.SplitJoinFirstThree | cloudTrailReduce.py:136-139 | Splitting `a-b-c[-…]` on `-` gives `a`, `b` and `c` as its first three pieces |
| Run.BucketPrefix | cloudTrailReduce.py:136-139 | The prefix exists exactly when the date has at least two `-`, i.e. three pieces |
| Run.BucketPrefixOfDate | cloudTrailReduce.py:136-139 | For a date `y-m-d`, optionally followed by more pieces, the prefix is `AWSLogs/<account>/CloudTrail/<region>/y/m/d` and the extra pieces are ignored |
| Run.Step | cloudTrailReduce.py:149-150 | One record munged and folded: a munge error aborts; otherwise a well-formed template stays well formed |
| Run.FoldRecords | cloudTrailReduce.py:148-150 | Folding an archive's records keeps the template well formed |
| Run.FoldArchives | cloudTrailReduce.py:144-150 | Every archive in listing order, stopping at the first that fails to load or holds a bad record; a well-formed template stays well formed |
| Run.RunSpec | cloudTrailReduce.py:134-155 | No contract of its own: the printed list, or the error that stops the run; described by `Run.RunOutcome`, `Run.RunPrincipalsFirstSeen` and `Run.RunWithoutPrincipalsIsEmpty`, and `Run.Run` is proved to compute it |
| Run.FoldRecordsFailureSticks | cloudTrailReduce.py:148-150 | A munge error aborts the run: once a prefix of the records fails, the whole archive fails with the same error |
| Run.FoldArchivesFailureSticks | cloudTrailReduce.py:144-150 | Once a prefix of the archives fails, the whole run fails with the same error |
| Run.FoldRecordsOutcome | cloudTrailReduce.py:148-150 | An archive's records fold without error exactly when every record has `eventName` and `eventSource`; otherwise the error names the first record that lacks one |
| Run.FoldArchivesSucceeds | cloudTrailReduce.py:144-150 | The archives fold without error exactly when every archive loads and all its records have both fields |
| Run.FoldArchiveRecords | cloudTrailReduce.py:148-150 | The loop over one archive's records leaves the template equal to `FoldRecords` of the old one, or stops with its error, and keeps it well formed |
| Run.Run | cloudTrailReduce.py:134-155 | The run with its two loops produces exactly `RunSpec` |
| Run.RunOutcome | cloudTrailReduce.py:134-150 | A run succeeds exactly when the date has three pieces and every archive loads with well-formed records; its output is then well formed |
| Run.FoldRecordsPrincipals | cloudTrailReduce.py:148-150 | Folding an archive extends the principal list by the ARNs of the records that munge to a policy, in first-seen order |
| Run.FoldArchivesPrincipals | cloudTrailReduce.py:144-150 | Folding all archives extends the principal list in the same way |
| Run.RunPrincipalsFirstSeen | cloudTrailReduce.py:137-150 | The output has one policy per distinct principal ARN of the input, in first-seen order, and no other |
| Run.RunWithoutPrincipalsIsEmpty | cloudTrailReduce.py:137-150 | A run in which no record yields a policy outputs `[]` |

## Left out

- STS and S3 access through boto3 (lines 15-16, 28-32, 135, 138, 140-141) is network I/O. The account number is a parameter of `Run`. The listing under the prefix is the `archives` parameter, taken in listing order.
- Download, gunzip to `/tmp` and `json.load` (lines 36-54) are file I/O. An archive whose loading fails, or whose JSON has no `Records` key, is an `Archive` with `records == None`, and the run stops with `LoadFailed`.
- Printing, progress messages and `json.dumps` of the result (lines 20-24, 128-130, 151-155) are output. `Run` returns the list that would be printed.
- Option parsing and `sys.exit` (lines 160-172) are command-line plumbing.
- Python 2 `.encode('utf-8')` (lines 61-62) is not modelled. Event names and sources are plain strings.
- JSON values of the wrong type are not modelled. A field is either present with the expected type or absent.
- The in-place mutation of dictionaries and lists shared between the template and the records (aliasing) is modelled by values: `PolicyTemplate` holds a `seq<Policy>` that `Fold` reassigns. Each munged record is a fresh object, so no sharing is observable in the program.
- PolicyTemplate.Fold: requires every existing policy to have a principal and the incoming record to have the shape `munge_record` gives it (one ARN, one action). Those are the only records the program passes. Other inputs would raise in the program, and that is not modelled.
