/**
 * The assignment pass as the program runs it: one loop over the employee
 * list that writes into a working copy in place. The `Assigned` column and
 * the two child columns are arrays; the random draw is the oracle `pick`
 * (see module SantaSpec). The method is proved to compute exactly the pass
 * that `SantaSpec.Run` describes, and so inherits every property proved
 * about it.
 */
module SecretSantaGame {
  import opened SantaSpec

  /**
   * Gives each employee a Secret Child: no one gets themself or last year's
   * child, and no address is picked twice. A giver with no row in last year's
   * result, or with nobody left to pick, keeps empty child fields, and the
   * returned outcome says which of the two happened.
   */
  method SecretSanta(employeeList: seq<Employee>, prevYearSanta: seq<Pairing>, pick: nat -> nat)
    returns (outputSanta: seq<SantaRow>, outcomes: seq<Outcome>)
    ensures var f := Run(employeeList, prevYearSanta, pick, |employeeList|);
      outputSanta == Rows(employeeList, f) && outcomes == f.outcomes
    ensures RosterKept(employeeList, outputSanta) && |outcomes| == |employeeList|
    ensures ChildrenRecorded(employeeList, outputSanta, outcomes)
    ensures NoSelfGift(employeeList, outcomes)
    ensures NoRepeatOfLastYear(employeeList, prevYearSanta, outcomes)
    ensures ChildrenDistinct(outcomes)
    ensures ChildrenOnRoster(employeeList, outcomes)
  {
    var n := |employeeList|;
    var isAssigned := new bool[n](_ => false);
    var childName := new string[n](_ => "");
    var childEmail := new string[n](_ => "");
    outcomes := [];
    ghost var unique := UniqueEmails(employeeList);
    AssignedCount(employeeList, prevYearSanta, pick, 0);
    for i := 0 to n
      invariant Frame(isAssigned[..], childName[..], childEmail[..], outcomes) == Run(employeeList, prevYearSanta, pick, i)
      invariant unique ==> CountTrue(isAssigned[..]) == CountMatched(outcomes)
    {
      var outcome := Turn(employeeList, prevYearSanta, pick, i, isAssigned, childName, childEmail, outcomes);
      outcomes := outcomes + [outcome];
      AssignedCount(employeeList, prevYearSanta, pick, i + 1);
    }
    outputSanta := Rows(employeeList, Frame(isAssigned[..], childName[..], childEmail[..], outcomes));
    RunKeepsRoster(employeeList, prevYearSanta, pick);
    RunRecordsChildren(employeeList, prevYearSanta, pick);
    RunAvoidsSelf(employeeList, prevYearSanta, pick);
    RunAvoidsLastYear(employeeList, prevYearSanta, pick);
    RunPicksEachChildOnce(employeeList, prevYearSanta, pick);
    RunPicksFromRoster(employeeList, prevYearSanta, pick);
  }

  /**
   * The turn of giver `i`, whose predecessors' outcomes are `done`: builds
   * the pool, looks up last year's child, filters, and either skips or picks,
   * marks and records the child in place.
   */
  method Turn(employeeList: seq<Employee>, prevYearSanta: seq<Pairing>, pick: nat -> nat, i: nat,
              isAssigned: array<bool>, childName: array<string>, childEmail: array<string>,
              ghost done: seq<Outcome>)
    returns (outcome: Outcome)
    requires isAssigned.Length == childName.Length == childEmail.Length == |employeeList|
    requires i == |done| < |employeeList|
    requires childName != childEmail
    modifies isAssigned, childName, childEmail
    ensures var f := Frame(old(isAssigned[..]), old(childName[..]), old(childEmail[..]), done);
      Frame(isAssigned[..], childName[..], childEmail[..], done + [outcome]) == Step(employeeList, prevYearSanta, pick, f)
  {
    ghost var f := Frame(isAssigned[..], childName[..], childEmail[..], done);
    var available := Unpicked(employeeList, isAssigned[..]);
    var selfEmail := employeeList[i].email;
    var last := PrevChild(prevYearSanta, selfEmail);
    if last.None? {
      outcome := NotInPrevYear;
    } else {
      available := Exclude(available, selfEmail, last.value);
      if available == [] {
        outcome := NoCandidate;
      } else {
        var secretChild := available[Draw(pick, i, |available|)];
        MarkAssigned(isAssigned, employeeList, secretChild);
        childEmail[i] := secretChild;
        childName[i] := ChildName(employeeList, secretChild);
        outcome := Matched(secretChild);
        assert Frame(isAssigned[..], childName[..], childEmail[..], done + [outcome]) == Picked(employeeList, f, secretChild);
      }
    }
  }

  /** Sets the `Assigned` flag of every row whose address is `c`, and of no other row. */
  method MarkAssigned(isAssigned: array<bool>, employeeList: seq<Employee>, c: string)
    requires isAssigned.Length == |employeeList|
    modifies isAssigned
    ensures isAssigned[..] == Mark(employeeList, old(isAssigned[..]), c)
  {
    forall r | 0 <= r < isAssigned.Length && employeeList[r].email == c {
      isAssigned[r] := true;
    }
  }
}
