/**
 * `parse_policy_template`: folding one munged record into the growing
 * list of policy objects, keyed on the principal ARN.
 */
module Template {
  import opened Wrappers
  import opened Ordering
  import opened Records

  /** Every policy has an `AWS[0]` for the match test to read. */
  predicate Indexable(ps: seq<Policy>)
  {
    forall i :: 0 <= i < |ps| ==> |ps[i].statement.aws| >= 1
  }

  /** The key a policy is merged on: its first `Principal.AWS` entry. */
  function Principal(p: Policy): string
    requires |p.statement.aws| >= 1
  {
    p.statement.aws[0]
  }

  /** The principals of the template, in template order. */
  function Principals(ps: seq<Policy>): seq<string>
    requires Indexable(ps)
  {
    seq(|ps|, i requires 0 <= i < |ps| => Principal(ps[i]))
  }

  /** The match test of the scan: the existing principal occurs in the record's `AWS` list. */
  predicate Matches(existing: Policy, record: Policy)
    requires |existing.statement.aws| >= 1
  {
    existing.statement.aws[0] in record.statement.aws
  }

  /** The action merge: add the action when absent, then re-sort. */
  function MergeActions(actions: seq<string>, action: string): seq<string>
  {
    if action in actions then actions else SortStrings(actions + [action])
  }

  /**
   * The resource merge: the incoming record's first resource joins an existing
   * `Resource` list, which is then re-sorted; every lookup that raises
   * (no incoming `Resource`, an empty one, no existing `Resource`) leaves
   * the list as it is.
   */
  function MergeResources(existing: Option<seq<string>>, incoming: Option<seq<string>>): Option<seq<string>>
  {
    if incoming.Some? && |incoming.value| > 0 && existing.Some? && incoming.value[0] !in existing.value
    then Some(SortStrings(existing.value + [incoming.value[0]]))
    else existing
  }

  /** The merge of a record into one matching policy: actions, then resources. */
  function Merge(existing: Policy, record: Policy): Policy
    requires |record.statement.action| >= 1
  {
    var s := existing.statement;
    existing.(statement := s.(
      action := MergeActions(s.action, record.statement.action[0]),
      resource := MergeResources(s.resource, record.statement.resource)))
  }

  /** The scan over the template, which does not stop at the first match. */
  function MergeMatching(ps: seq<Policy>, record: Policy): seq<Policy>
    requires Indexable(ps)
    requires |record.statement.action| >= 1
  {
    seq(|ps|, i requires 0 <= i < |ps| =>
      if Matches(ps[i], record) then Merge(ps[i], record) else ps[i])
  }

  /** `parse_policy_template`: the template after folding `record` into `ps`. */
  function FoldSpec(ps: seq<Policy>, record: Option<Policy>): (r: seq<Policy>)
    requires Indexable(ps)
    requires record.Some? ==> IsFragment(record.value)
    ensures Indexable(r)
    ensures record.None? ==> r == ps
    ensures |ps| <= |r| <= |ps| + 1
  {
    if record.None? then ps
    else if ps == [] then [record.value]
    else if exists i :: 0 <= i < |ps| && Matches(ps[i], record.value) then MergeMatching(ps, record.value)
    else ps + [record.value]
  }

  /** The `Action` list of a statement is ascending and duplicate-free. */
  predicate ActionsOk(p: Policy)
  {
    |p.statement.action| >= 1 && Sorted(p.statement.action) && Distinct(p.statement.action)
  }

  /**
   * What every template built by the program satisfies: one principal per
   * policy, no principal twice, and sorted duplicate-free actions.
   */
  predicate WellFormed(ps: seq<Policy>)
  {
    && (forall i :: 0 <= i < |ps| ==> |ps[i].statement.aws| == 1 && ActionsOk(ps[i]))
    && Distinct(Principals(ps))
  }

  /** Appends `x` unless it is already present. */
  function AddIfAbsent(seen: seq<string>, x: string): seq<string>
  {
    if x in seen then seen else seen + [x]
  }

  /**
   * Merging an action into a sorted duplicate-free list gives a sorted
   * duplicate-free list holding exactly the old actions and the new one,
   * and changes nothing when the action is already there.
   */
  lemma MergeActionsSpec(actions: seq<string>, action: string)
    requires Sorted(actions) && Distinct(actions)
    ensures Sorted(MergeActions(actions, action)) && Distinct(MergeActions(actions, action))
    ensures forall y :: y in MergeActions(actions, action) <==> y in actions || y == action
    ensures action in actions ==> MergeActions(actions, action) == actions
  {
    if action !in actions {
      SortAddsFresh(actions, action);
    }
  }

  /**
   * The resource rule: a policy created without `Resource` never gains
   * one; only the incoming record's first resource can be added; it is
   * added, and the list re-sorted, exactly when both sides have a list,
   * the incoming one is non-empty and the resource is new.
   */
  lemma MergeResourcesSpec(existing: Option<seq<string>>, incoming: Option<seq<string>>)
    ensures existing.None? ==> MergeResources(existing, incoming).None?
    ensures var r := MergeResources(existing, incoming);
      r.Some? ==> forall y :: y in r.value ==>
        y in existing.value || (incoming.Some? && |incoming.value| > 0 && y == incoming.value[0])
    ensures var grows := existing.Some? && incoming.Some? && |incoming.value| > 0
                         && incoming.value[0] !in existing.value;
      && (!grows ==> MergeResources(existing, incoming) == existing)
      && (grows ==> var r := MergeResources(existing, incoming);
            && r.Some? && r != existing && Sorted(r.value)
            && multiset(r.value) == multiset(existing.value) + multiset{incoming.value[0]})
  {
    var r := MergeResources(existing, incoming);
    if r != existing {
      var added := incoming.value[0];
      assert added in multiset(r.value);
      assert added !in multiset(existing.value);
      forall y | y in r.value
        ensures y in existing.value || y == added
      {
        assert y in multiset(r.value);
      }
    }
  }

  /** With a fragment, the match test is equality of principals. */
  lemma MatchesIsSamePrincipal(existing: Policy, record: Policy)
    requires |existing.statement.aws| >= 1 && IsFragment(record)
    ensures Matches(existing, record) <==> Principal(existing) == Principal(record)
  {
  }

  /**
   * One call's effect on the template: at most one new policy, appended
   * at the end exactly when its principal is new; every policy of another
   * principal unchanged; every policy of the same principal merged.
   */
  lemma {:induction false} FoldFrame(ps: seq<Policy>, record: Policy)
    requires Indexable(ps) && IsFragment(record)
    ensures var r := FoldSpec(ps, Some(record));
      && Indexable(r)
      && (|r| == |ps| + 1 <==> Principal(record) !in Principals(ps))
      && (Principal(record) in Principals(ps) ==> |r| == |ps|)
      && (|r| == |ps| + 1 ==> r[|ps|] == record)
      && (forall i :: 0 <= i < |ps| && Principal(ps[i]) != Principal(record) ==> r[i] == ps[i])
      && (forall i :: 0 <= i < |ps| && Principal(ps[i]) == Principal(record) ==> r[i] == Merge(ps[i], record))
  {
    var r := FoldSpec(ps, Some(record));
    forall i | 0 <= i < |ps|
      ensures Matches(ps[i], record) <==> Principal(ps[i]) == Principal(record)
    {
      MatchesIsSamePrincipal(ps[i], record);
    }
    if Principal(record) in Principals(ps) {
      var k :| 0 <= k < |ps| && Principals(ps)[k] == Principal(record);
      assert Matches(ps[k], record);
    } else {
      forall i | 0 <= i < |ps|
        ensures !Matches(ps[i], record)
      {
        assert Principals(ps)[i] == Principal(ps[i]);
      }
    }
  }

  /**
   * Principals keep their first-seen order: a call appends the record's
   * principal when it is new and otherwise leaves the list as it was.
   */
  lemma FoldPrincipals(ps: seq<Policy>, record: Policy)
    requires Indexable(ps) && IsFragment(record)
    ensures Indexable(FoldSpec(ps, Some(record)))
    ensures Principals(FoldSpec(ps, Some(record))) == AddIfAbsent(Principals(ps), Principal(record))
  {
    FoldFrame(ps, record);
    var r := FoldSpec(ps, Some(record));
    var expected := AddIfAbsent(Principals(ps), Principal(record));
    assert |Principals(r)| == |expected|;
    forall i | 0 <= i < |r|
      ensures Principals(r)[i] == expected[i]
    {
      if i < |ps| && Principal(ps[i]) == Principal(record) {
        assert r[i] == Merge(ps[i], record);
      }
    }
  }

  /** A call keeps the template well formed. */
  lemma FoldPreservesWellFormed(ps: seq<Policy>, record: Policy)
    requires WellFormed(ps) && IsFragment(record)
    ensures WellFormed(FoldSpec(ps, Some(record)))
  {
    FoldFrame(ps, record);
    FoldPrincipals(ps, record);
    var r := FoldSpec(ps, Some(record));
    forall i | 0 <= i < |r|
      ensures |r[i].statement.aws| == 1 && ActionsOk(r[i])
    {
      if i < |ps| && Principal(ps[i]) == Principal(record) {
        MergeActionsSpec(ps[i].statement.action, record.statement.action[0]);
      }
    }
    var p := Principals(ps);
    if Principal(record) !in p {
      assert Distinct(p + [Principal(record)]);
    }
  }

  /**
   * The scan does not break, but with unique principals at most one
   * policy matches, so a call updates that one policy in place.
   */
  lemma FoldUpdatesTheOneMatch(ps: seq<Policy>, record: Policy, k: nat)
    requires Indexable(ps) && Distinct(Principals(ps)) && IsFragment(record)
    requires k < |ps| && Principal(ps[k]) == Principal(record)
    ensures FoldSpec(ps, Some(record)) == ps[k := Merge(ps[k], record)]
  {
    FoldFrame(ps, record);
    assert Principals(ps)[k] == Principal(record);
    forall i | 0 <= i < |ps| && i != k
      ensures Principal(ps[i]) != Principal(record)
    {
      assert Principals(ps)[i] == Principal(ps[i]);
    }
  }

  /** A policy created without `Resource` has none after any later call. */
  lemma FoldNeverAddsResourceKey(ps: seq<Policy>, record: Policy, i: nat)
    requires Indexable(ps) && IsFragment(record)
    requires i < |ps| && ps[i].statement.resource.None?
    ensures FoldSpec(ps, Some(record))[i].statement.resource.None?
  {
    FoldFrame(ps, record);
    MergeResourcesSpec(ps[i].statement.resource, record.statement.resource);
  }

  /** Merging the same record twice into a policy has the effect of merging it once. */
  lemma MergeIdempotent(existing: Policy, record: Policy)
    requires IsFragment(record)
    ensures Merge(Merge(existing, record), record) == Merge(existing, record)
  {
    var a := record.statement.action[0];
    var acts := existing.statement.action;
    if a !in acts {
      assert a in multiset(SortStrings(acts + [a]));
    }
    var res := MergeResources(existing.statement.resource, record.statement.resource);
    if res != existing.statement.resource {
      assert record.statement.resource.value[0] in multiset(res.value);
    }
  }

  /** Folding the same record twice in a row has the effect of folding it once. */
  lemma FoldIdempotent(ps: seq<Policy>, record: Policy)
    requires Indexable(ps) && IsFragment(record)
    ensures Indexable(FoldSpec(ps, Some(record)))
    ensures FoldSpec(FoldSpec(ps, Some(record)), Some(record)) == FoldSpec(ps, Some(record))
  {
    FoldFrame(ps, record);
    var once := FoldSpec(ps, Some(record));
    FoldFrame(once, record);
    var twice := FoldSpec(once, Some(record));
    assert Principal(record) in Principals(once) by {
      FoldPrincipals(ps, record);
    }
    forall i | 0 <= i < |once|
      ensures twice[i] == once[i]
    {
      if Principal(once[i]) == Principal(record) {
        if i < |ps| {
          MergeIdempotent(ps[i], record);
        } else {
          assert once[i] == record;
          var s := record.statement;
          assert s.action[0] in s.action;
          if s.resource.Some? && |s.resource.value| > 0 {
            assert s.resource.value[0] in s.resource.value;
          }
        }
      }
    }
  }

  /** The second record of the example merged into the first one's policy. */
  lemma ExampleSecondMerge(arn: string, get: string, put: string, r1: string, r2: string, r3: string)
    requires Sorted([get, put]) && get != put
    requires Sorted([r1, r2, r3]) && r3 !in [r1, r2]
    ensures Merge(Policy(POLICY_VERSION, Statement(ALLOW, [arn], [get], Some([r1, r2]))),
                  Policy(POLICY_VERSION, Statement(ALLOW, [arn], [put], Some([r3]))))
         == Policy(POLICY_VERSION, Statement(ALLOW, [arn], [get, put], Some([r1, r2, r3])))
  {
    assert [get] + [put] == [get, put];
    SortedIsFixed([get], put);
    assert [r1, r2] + [r3] == [r1, r2, r3];
    SortedIsFixed([r1, r2], r3);
  }

  /** The example's second call: a new action and a new resource for the same principal. */
  lemma ExampleSecondRecord(arn: string, get: string, put: string, r1: string, r2: string, r3: string)
    requires Sorted([get, put]) && get != put
    requires Sorted([r1, r2, r3]) && r3 !in [r1, r2]
    ensures FoldSpec([Policy(POLICY_VERSION, Statement(ALLOW, [arn], [get], Some([r1, r2])))],
                     Some(Policy(POLICY_VERSION, Statement(ALLOW, [arn], [put], Some([r3])))))
         == [Policy(POLICY_VERSION, Statement(ALLOW, [arn], [get, put], Some([r1, r2, r3])))]
  {
    var t := [Policy(POLICY_VERSION, Statement(ALLOW, [arn], [get], Some([r1, r2])))];
    var b := Policy(POLICY_VERSION, Statement(ALLOW, [arn], [put], Some([r3])));
    assert Principals(t) == [arn];
    FoldUpdatesTheOneMatch(t, b, 0);
    ExampleSecondMerge(arn, get, put, r1, r2, r3);
  }

  /** The example's third call: a known action, and only the first of two resources added. */
  lemma ExampleThirdRecord(arn: string, get: string, put: string, rs: seq<string>, r5: string)
    requires |rs| == 4 && Sorted(rs) && rs[3] !in rs[..3]
    ensures FoldSpec([Policy(POLICY_VERSION, Statement(ALLOW, [arn], [get, put], Some(rs[..3])))],
                     Some(Policy(POLICY_VERSION, Statement(ALLOW, [arn], [get], Some([rs[3], r5])))))
         == [Policy(POLICY_VERSION, Statement(ALLOW, [arn], [get, put], Some(rs)))]
  {
    var t := [Policy(POLICY_VERSION, Statement(ALLOW, [arn], [get, put], Some(rs[..3])))];
    var c := Policy(POLICY_VERSION, Statement(ALLOW, [arn], [get], Some([rs[3], r5])));
    assert Principals(t) == [arn];
    FoldUpdatesTheOneMatch(t, c, 0);
    assert rs == rs[..3] + [rs[3]];
    SortStringsIsTheSortedPermutation(rs[..3] + [rs[3]], rs);
  }

  /**
   * Three records of one principal: the first creates the policy with
   * both of its resources; the second adds its action and its only
   * resource; the third repeats an action and adds its first resource
   * but not its second.
   */
  lemma FirstResourceOnlyExample(arn: string, get: string, put: string,
                                 r1: string, r2: string, r3: string, r4: string, r5: string)
    requires Sorted([get, put]) && get != put
    requires Sorted([r1, r2, r3, r4]) && r3 !in [r1, r2] && r4 !in [r1, r2, r3]
    ensures
      var a := Policy(POLICY_VERSION, Statement(ALLOW, [arn], [get], Some([r1, r2])));
      var b := Policy(POLICY_VERSION, Statement(ALLOW, [arn], [put], Some([r3])));
      var c := Policy(POLICY_VERSION, Statement(ALLOW, [arn], [get], Some([r4, r5])));
      FoldSpec(FoldSpec(FoldSpec([], Some(a)), Some(b)), Some(c))
        == [Policy(POLICY_VERSION, Statement(ALLOW, [arn], [get, put], Some([r1, r2, r3, r4])))]
  {
    var rs := [r1, r2, r3, r4];
    assert rs[..3] == [r1, r2, r3];
    ExampleSecondRecord(arn, get, put, r1, r2, r3);
    ExampleThirdRecord(arn, get, put, rs, r5);
  }

  /**
   * The merge as `parse_policy_template` runs it on one matching policy: the
   * action is appended and the list re-sorted, then the first incoming
   * resource likewise, each step skipped when its lookup would raise or
   * the value is already there.
   */
  method MergeInto(existing: Policy, record: Policy) returns (updated: Policy)
    requires |record.statement.action| >= 1
    ensures updated == Merge(existing, record)
  {
    var s := existing.statement;
    var action := record.statement.action[0];
    if action !in s.action {
      s := s.(action := SortStrings(s.action + [action]));
    }
    if record.statement.resource.Some? && |record.statement.resource.value| > 0 {
      var first := record.statement.resource.value[0];
      if s.resource.Some? && first !in s.resource.value {
        s := s.(resource := Some(SortStrings(s.resource.value + [first])));
      }
    }
    updated := existing.(statement := s);
  }

  /**
   * The list of policy objects that `run` threads through its loop;
   * `Fold` is `parse_policy_template`, which updates the list in place.
   */
  class PolicyTemplate {
    var statements: seq<Policy>

    ghost predicate Valid()
      reads this
    {
      WellFormed(statements)
    }

    /** `run` starts from an empty template. */
    constructor ()
      ensures statements == [] && Valid()
    {
      statements := [];
    }

    /**
     * `parse_policy_template`: scan every policy, merging the record into
     * each one whose principal matches, and append it when none did.
     */
    method Fold(record: Option<Policy>)
      requires Indexable(statements)
      requires record.Some? ==> IsFragment(record.value)
      modifies this
      ensures statements == FoldSpec(old(statements), record)
      ensures Indexable(statements)
      ensures old(Valid()) ==> Valid()
    {
      var before := statements;
      if record.Some? {
        var incoming := record.value;
        if before == [] {
          statements := before + [incoming];
        } else {
          ghost var merged := MergeMatching(before, incoming);
          var current := before;
          var matched := false;
          var i := 0;
          while i < |current|
            invariant 0 <= i <= |current| == |before|
            invariant forall k :: 0 <= k < i ==> current[k] == merged[k]
            invariant forall k :: i <= k < |before| ==> current[k] == before[k]
            invariant matched <==> exists k :: 0 <= k < i && Matches(before[k], incoming)
          {
            var existing := current[i];
            if existing.statement.aws[0] in incoming.statement.aws {
              matched := true;
              var updated := MergeInto(existing, incoming);
              current := current[i := updated];
            }
            i := i + 1;
          }
          if !matched {
            current := current + [incoming];
          }
          assert matched ==> current == merged;
          statements := current;
        }
        FoldFrame(before, incoming);
        if WellFormed(before) {
          FoldPreservesWellFormed(before, incoming);
        }
      }
    }
  }
}
