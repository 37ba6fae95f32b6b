# Secret Santa assignment pass

A model of `SecretSantaGame.secret_santa` in `secret_santa.py`. The method
reads an employee list (`Employee_Name`, `Employee_EmailID`) and last year's
result (`Employee_EmailID`, `Secret_Child_EmailID`). It tries to hand every employee
a Secret Child in one pass over the list, in list order.

At each giver's turn the pass does four things:

- It collects the addresses of the rows that are not yet marked `Assigned`.
- It looks up the giver's child from last year, using the first matching row.
- It drops the giver's own address and last year's child from the pool.
- It draws one address at random from what remains.

The drawn child then gets marked: every row with that address is set
`Assigned`. The giver's row records the child's address and the name from the
child's first employee row.

A giver is skipped, with a message and empty child fields, in two cases:

- last year's result has no row for them;
- their filtered pool is empty.

The `Assigned` column is dropped from the returned table.

The project has two modules:

- `santa_spec.dfy`, module `SantaSpec`: the rows as datatypes and the look-ups
  of one turn as functions. `Step` is one turn and `Run` is the first `k`
  turns; together they are the reference definition of the pass. The file
  also holds every lemma about that definition.
- `santa_game.dfy`, module `SecretSantaGame`: the pass as the program runs it.
  It is a loop over the list that updates the `Assigned` column and the two
  child columns in place, held as arrays. The method is proved to produce
  exactly `Run` of the whole list, and its `ensures` repeat the guarantees
  proved about `Run`.

`random.choice` becomes an oracle `pick: nat -> nat`. At turn `i` the draw
takes index `pick(i) % |pool|` of the pool list. Every sequence of choices
comes from some oracle, so a lemma that holds for all `pick` holds for every
possible run. The two skip messages become the outcome tags `NotInPrevYear`
and `NoCandidate`. A successful turn becomes `Matched(child)`.

Last year's result reads naturally as a mapping from giver to child. The code
instead scans the table and takes the first row whose giver matches.
The model follows the code (`FirstGiverRow`, `PrevChild`). The two agree when
every giver appears at most once in that table.

The model does not assume that addresses are unique. Line 66 marks every row
that carries the drawn address, so no address can be drawn twice even when
addresses repeat. Only the count results (`AssignedCount` and its helpers
`MarkOneRow`, `PickMarksOneRow` and `StepCount`) and the marking half of
`OnlyCandidate` assume unique addresses.

## Model

| member | source | states |
|---|---|---|
| SantaSpec.Start | secret_santa.py:43-48 | definition, no contract: the new columns start as no row marked `Assigned` and empty child fields; `RunInvariant` (case `k = 0`) and `AssignedCount` state what it gives the pass |
| SantaSpec.Mark | secret_santa.py:66 | definition, no contract: the mask that marks every row with the drawn address; `MarkOneRow`, `StepMarksOnlyDrawn` and `SecretSantaGame.MarkAssigned` state its behaviour |
| SantaSpec.ChildName | secret_santa.py:68 | definition, no contract: the name of the child's first employee row; `RunRecordsChildren` states its behaviour |
| SantaSpec.Picked | secret_santa.py:66-68 | definition, no contract: the working copy after a draw; `StepKeepsInvariant`, `OnlyCandidate` and `PickMarksOneRow` state its behaviour |
| SantaSpec.Rows | secret_santa.py:70-71 | definition, no contract: the returned table, the working copy without the `Assigned` column; `RunKeepsRoster` and `RunRecordsChildren` state its behaviour |
| SantaSpec.Unpicked | secret_santa.py:51 | the pool holds the address of every row not marked `Assigned`, and only such addresses |
| SantaSpec.Exclude | secret_santa.py:56 | an address survives the filter exactly when it was in the pool and is neither the giver's own address nor last year's child; the list never grows |
| SantaSpec.FirstGiverRow | secret_santa.py:55 | the index found is the first row of last year's result whose giver is the given address, or the table's length when there is none |
| SantaSpec.PrevChild | secret_santa.py:54-59 | there is no previous child exactly when no row of last year's result has this giver; a child that is found comes from the first row that has this giver |
| SantaSpec.FirstEmployeeRow | secret_santa.py:68 | the index found is the first employee row with the given address, or the list's length when there is none |
| SantaSpec.Draw | secret_santa.py:65 | the random draw always takes an index inside the candidate list |
| SantaSpec.Step | secret_santa.py:50-68 | one turn keeps the shape of the working copy, appends exactly one outcome, and leaves the earlier outcomes unchanged |
| SantaSpec.Run | secret_santa.py:50-68 | after `k` turns the working copy has the list's shape and exactly `k` outcomes |
| SantaSpec.StepKeepsInvariant | secret_santa.py:50-68 | every kind of turn keeps the pass invariant: records, exclusions, distinct picks, and picked rows marked |
| SantaSpec.RunStepKeepsInvariant | secret_santa.py:50-68 | if the pass invariant holds after `k` turns, it holds after turn `k + 1` |
| SantaSpec.RunInvariant | secret_santa.py:50-68 | the pass invariant holds after every number of turns, whatever the draws |
| SantaSpec.StepMarksOnlyDrawn | secret_santa.py:61-66 | a turn sets `Assigned` only on rows with the address it draws, so every marked row stays explained by a draw |
| SantaSpec.RunMarksOnlyDrawn | secret_santa.py:46-66 | the flags start false (line 46) and only line 66 sets them, so after any number of turns, a row is marked `Assigned` only if its address was drawn as some giver's child; a skipped turn uses up no address |
| SantaSpec.RunKeepsRoster | secret_santa.py:42-48 | the returned table has the employee list's rows, in order, with name and address unchanged |
| SantaSpec.RunRecordsChildren | secret_santa.py:48-68 | a matched giver's row holds the child's address and the name of the child's first employee row (lines 67-68); a skipped giver's row keeps both fields empty, as line 48 left them |
| SantaSpec.RunAvoidsSelf | secret_santa.py:56 | no giver is matched with their own address |
| SantaSpec.RunAvoidsLastYear | secret_santa.py:54-59 | a giver is skipped as missing from last year exactly when last year's result has no row for them; no matched giver gets last year's child again |
| SantaSpec.RunPicksEachChildOnce | secret_santa.py:51 | no address is drawn as a child twice, whether or not addresses are unique |
| SantaSpec.RunPicksFromRoster | secret_santa.py:51 | every drawn child is the address of some employee row |
| SantaSpec.TurnOutcome | secret_santa.py:54-63 | skipped as missing from last year exactly when there is no row for the giver; skipped for want of candidates exactly when the filtered pool is empty; a skip changes no flag and no child field; a match draws from the filtered pool and clears no flag |
| SantaSpec.SingleEmployeeNeverMatched | secret_santa.py:56 | a list of one employee never matches its only giver |
| SantaSpec.MarkOneRow | secret_santa.py:66 | with unique addresses, marking the address of row `r` marks row `r` and no other row |
| SantaSpec.PickMarksOneRow | secret_santa.py:65-66 | with unique addresses, drawing an address from the pool adds exactly one marked row |
| SantaSpec.StepCount | secret_santa.py:50-68 | with unique addresses, a turn adds one marked row exactly when it matches its giver |
| SantaSpec.AssignedCount | secret_santa.py:50-68 | with unique addresses, the number of rows marked `Assigned` equals the number of matched givers after every turn |
| SantaSpec.OnlyCandidate | secret_santa.py:61-68 | when the filtered pool holds a single address, the turn draws it whatever the oracle, for any list; with unique addresses it also marks exactly that address's row |
| SantaSpec.ThreeCycle | secret_santa.py:50-68 | three employees whose previous round was the cycle A to B, B to C, C to A always get A to C, B to A, C to B |
| SantaSpec.TwoSwap | secret_santa.py:56-63 | two employees who gave to each other last year are both skipped for want of candidates |
| SecretSantaGame.SecretSanta | secret_santa.py:41-71 | the returned table and outcomes are exactly those of the reference pass; rows kept, children recorded, no self gift, no repeat of last year, no child drawn twice, every child on the list |
| SecretSantaGame.Turn | secret_santa.py:51-68 | one iteration of the loop changes the three columns exactly as one reference turn does |
| SecretSantaGame.MarkAssigned | secret_santa.py:66 | the `Assigned` flag is set on every row with the drawn address and on no other row |

## Left out

- The constructor and `read_excel` (lines 34-39): reading Excel files is I/O. The two tables are parameters of the method.
- The script at lines 73-84: it writes a CSV file, prints messages and catches file and other exceptions. All of that is I/O.
- The text of the two printed messages (lines 58 and 62). Each becomes an outcome tag, and the method returns the tags.
- The uniform distribution of `random.choice`. The oracle covers every possible sequence of draws, but the model says nothing about their probabilities.
- Row labels that are not 0..N-1. The source mixes positional access (`iloc`) with label access (`at`); the model assumes the default labels, so a row's label is its position.
- Missing values (NaN) in last year's `Secret_Child_EmailID`, and addresses of other types than strings. Pandas comparison quirks for these are not modelled.
- Columns of the employee list other than name and address. The copy at line 42 carries most of them through unchanged, and the model has only the two columns it reads. Input columns that share a name with the working columns are not carried through: lines 46 and 48 overwrite columns named `Assigned`, `Secret_Child_Name` or `Secret_Child_EmailID`, and line 70 drops `Assigned`. The model starts its working columns fresh, as those lines do, and has no field for the overwritten input values.
- The `self` object. The method only reads the two tables stored on it, so they are passed as parameters.
