/**
 * One CloudTrail event and the one-statement IAM policy object that
 * `munge_record` builds from it.
 */
module Records {
  import opened Wrappers
  import opened Strings

  /** The `Version` every generated policy carries. */
  const POLICY_VERSION: string := "2012-10-17"

  /** The `Effect` every generated statement carries. */
  const ALLOW: string := "Allow"

  /** The `userIdentity` object of an event; only its `arn` key is read. */
  datatype UserIdentity = UserIdentity(arn: Option<string>)

  /** One entry of an event's `resources` list; only its `ARN` key is read. */
  datatype ResourceEntry = ResourceEntry(arn: Option<string>)

  /** An event record as loaded from the archive; `None` is a missing key. */
  datatype EventRecord = EventRecord(
    eventName: Option<string>,
    eventSource: Option<string>,
    userIdentity: Option<UserIdentity>,
    resources: Option<seq<ResourceEntry>>)

  /**
   * The single element of a policy's `Statement` list: `Effect`,
   * `Principal.AWS`, `Action` and the optional `Resource` key.
   */
  datatype Statement = Statement(
    effect: string,
    aws: seq<string>,
    action: seq<string>,
    resource: Option<seq<string>>)

  /** A policy object `{Version, Statement: [statement]}`. */
  datatype Policy = Policy(version: string, statement: Statement)

  /** What `munge_record` does with one record: raise, return None, or return a policy. */
  datatype MungeResult = MungeError | Skip | Emit(policy: Policy)

  /** The shape of every policy `munge_record` returns: one principal and one action. */
  predicate IsFragment(p: Policy)
  {
    |p.statement.aws| == 1 && |p.statement.action| == 1
  }

  /** `record['eventName']` and `record['eventSource']` are both present. */
  predicate HasMandatoryFields(e: EventRecord)
  {
    e.eventName.Some? && e.eventSource.Some?
  }

  /** `record['userIdentity']['arn']`, or None when either key is missing. */
  function ArnOf(e: EventRecord): Option<string>
  {
    match e.userIdentity
    case None => None
    case Some(id) => id.arn
  }

  /** The service name: `eventSource.split(".")[0]`. */
  function ServiceOf(eventSource: string): string
  {
    Split(eventSource, '.')[0]
  }

  /**
   * The service is the text of the event source before its first `.`,
   * or the whole source when it has none.
   */
  lemma ServiceOfIsTextBeforeFirstDot(eventSource: string)
    ensures ServiceOf(eventSource) <= eventSource
    ensures '.' !in ServiceOf(eventSource)
    ensures |ServiceOf(eventSource)| == |eventSource|
         || eventSource[|ServiceOf(eventSource)|] == '.'
  {
    SplitFirst(eventSource, '.');
  }

  /**
   * `arns` is what the resource loop leaves behind: the `ARN` values of
   * the entries in order, stopping at the first entry without one.
   */
  predicate TruncatedArns(arns: seq<string>, entries: seq<ResourceEntry>)
  {
    && |arns| <= |entries|
    && (forall i :: 0 <= i < |arns| ==> entries[i].arn == Some(arns[i]))
    && (|arns| < |entries| ==> entries[|arns|].arn.None?)
  }

  /** The `Resource` list built from a `resources` list. */
  function ResourceArns(entries: seq<ResourceEntry>): (r: seq<string>)
    ensures TruncatedArns(r, entries)
  {
    if entries == [] then []
    else match entries[0].arn
      case None => []
      case Some(a) => [a] + ResourceArns(entries[1..])
  }

  /** Only one list satisfies `TruncatedArns` for given entries. */
  lemma TruncatedArnsUnique(arns: seq<string>, entries: seq<ResourceEntry>)
    requires TruncatedArns(arns, entries)
    ensures arns == ResourceArns(entries)
  {
    var r := ResourceArns(entries);
    assert |arns| == |r|;
  }

  /** `munge_record`: normalise one event into a policy object. */
  function Munge(e: EventRecord): (r: MungeResult)
    ensures r.MungeError? <==> !HasMandatoryFields(e)
    ensures r.Skip? <==> HasMandatoryFields(e) && ArnOf(e).None?
    ensures r.Emit? ==>
      && IsFragment(r.policy)
      && r.policy.version == POLICY_VERSION
      && r.policy.statement.effect == ALLOW
      && r.policy.statement.aws == [ArnOf(e).value]
      && r.policy.statement.action == [ServiceOf(e.eventSource.value) + ":" + e.eventName.value]
      && (r.policy.statement.resource.Some? <==> e.resources.Some?)
      && (e.resources.Some? ==> TruncatedArns(r.policy.statement.resource.value, e.resources.value))
  {
    if e.eventName.None? || e.eventSource.None? then
      MungeError
    else
      match ArnOf(e)
      case None => Skip
      case Some(arn) =>
        var action := ServiceOf(e.eventSource.value) + ":" + e.eventName.value;
        var resource := match e.resources
          case None => None
          case Some(entries) => Some(ResourceArns(entries));
        Emit(Policy(POLICY_VERSION, Statement(ALLOW, [arn], [action], resource)))
  }

  /**
   * `munge_record` as the program runs it: the `Resource` list is grown
   * entry by entry until an entry lacks `ARN`.
   */
  method MungeRecord(e: EventRecord) returns (r: MungeResult)
    ensures r == Munge(e)
  {
    if e.eventName.None? || e.eventSource.None? {
      return MungeError;
    }
    var arn := ArnOf(e);
    if arn.None? {
      return Skip;
    }
    var action := ServiceOf(e.eventSource.value) + ":" + e.eventName.value;
    var resource: Option<seq<string>> := None;
    if e.resources.Some? {
      var entries := e.resources.value;
      var arns: seq<string> := [];
      var k := 0;
      while k < |entries| && entries[k].arn.Some?
        invariant 0 <= k <= |entries|
        invariant |arns| == k
        invariant forall i :: 0 <= i < k ==> entries[i].arn == Some(arns[i])
      {
        arns := arns + [entries[k].arn.value];
        k := k + 1;
      }
      TruncatedArnsUnique(arns, entries);
      resource := Some(arns);
    }
    r := Emit(Policy(POLICY_VERSION, Statement(ALLOW, [arn.value], [action], resource)));
  }
}
