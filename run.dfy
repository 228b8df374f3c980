/**
 * `run`: the S3 key prefix for one day of logs, and the loop that munges
 * every record of every archive and folds it into the template.
 */
module Run {
  import opened Wrappers
  import opened Strings
  import opened Ordering
  import opened Records
  import opened Template

  /**
   * The S3 key prefix `run` lists under, from the account number, the region and
   * the first three `-`-separated pieces of the date; the date needs at
   * least two `-`, or `run` fails indexing the missing piece.
   */
  function BucketPrefix(account: string, region: string, date: string): (r: Option<string>)
    ensures r.Some? <==> multiset(date)['-'] >= 2
  {
    var d := Split(date, '-');
    SplitCount(date, '-');
    if |d| < 3 then None
    else Some("AWSLogs/" + account + "/CloudTrail/" + region + "/" + d[0] + "/" + d[1] + "/" + d[2])
  }

  /**
   * For a date `y-m-d`, possibly followed by more `-`-separated pieces,
   * the prefix ends in `y/m/d` and the extra pieces are ignored.
   */
  lemma BucketPrefixOfDate(account: string, region: string, y: string, m: string, d: string, extra: seq<string>)
    requires '-' !in y && '-' !in m && '-' !in d
    requires forall i :: 0 <= i < |extra| ==> '-' !in extra[i]
    ensures BucketPrefix(account, region, Join([y, m, d] + extra, '-'))
         == Some("AWSLogs/" + account + "/CloudTrail/" + region + "/" + y + "/" + m + "/" + d)
  {
    SplitJoinFirstThree(y, m, d, extra, '-');
  }

  /** The fatal errors of a run, each of which aborts it without output. */
  datatype RunError =
    | MalformedDate                   // fewer than three date pieces: indexing the split date fails
    | LoadFailed(key: string)         // download, gunzip or JSON load of the archive failed
    | MungeFailed(record: EventRecord) // a record without eventName or eventSource

  /**
   * One object under the prefix, in listing order; `records` is None when
   * fetching, extracting or parsing it fails or it has no `Records` key.
   */
  datatype Archive = Archive(key: string, records: Option<seq<EventRecord>>)

  /** One iteration of `run`'s record loop: munge the record, then fold the result in. */
  function Step(ps: seq<Policy>, e: EventRecord): (r: Result<seq<Policy>, RunError>)
    requires WellFormed(ps)
    ensures r.Success? ==> WellFormed(r.value)
  {
    match Munge(e)
    case MungeError => Failure(MungeFailed(e))
    case Skip => Success(FoldSpec(ps, None))
    case Emit(p) =>
      FoldPreservesWellFormed(ps, p);
      Success(FoldSpec(ps, Some(p)))
  }

  /** `run`'s record loop: the records of one archive, in order, from template `ps`. */
  function FoldRecords(ps: seq<Policy>, records: seq<EventRecord>): (r: Result<seq<Policy>, RunError>)
    requires WellFormed(ps)
    ensures r.Success? ==> WellFormed(r.value)
    decreases |records|
  {
    if records == [] then Success(ps)
    else match FoldRecords(ps, records[..|records| - 1])
      case Failure(err) => Failure(err)
      case Success(qs) => Step(qs, records[|records| - 1])
  }

  /** `run`'s archive loop: every archive in listing order. */
  function FoldArchives(ps: seq<Policy>, archives: seq<Archive>): (r: Result<seq<Policy>, RunError>)
    requires WellFormed(ps)
    ensures r.Success? ==> WellFormed(r.value)
    decreases |archives|
  {
    if archives == [] then Success(ps)
    else match FoldArchives(ps, archives[..|archives| - 1])
      case Failure(err) => Failure(err)
      case Success(qs) =>
        var last := archives[|archives| - 1];
        match last.records
        case None => Failure(LoadFailed(last.key))
        case Some(records) => FoldRecords(qs, records)
  }

  /** What `run` prints, or the error it stops with. */
  function RunSpec(account: string, region: string, date: string, archives: seq<Archive>): Result<seq<Policy>, RunError>
  {
    if BucketPrefix(account, region, date).None? then Failure(MalformedDate)
    else FoldArchives([], archives)
  }

  /** Once a prefix of the records fails, the whole list fails the same way. */
  lemma {:induction false} FoldRecordsFailureSticks(ps: seq<Policy>, records: seq<EventRecord>, n: nat)
    requires WellFormed(ps) && n <= |records|
    requires FoldRecords(ps, records[..n]).Failure?
    ensures FoldRecords(ps, records) == FoldRecords(ps, records[..n])
    decreases |records| - n
  {
    if n < |records| {
      var m := |records| - 1;
      assert records[..m][..n] == records[..n];
      if n < m {
        FoldRecordsFailureSticks(ps, records[..m], n);
      }
      assert records[..m] == records[..|records|][..m];
      assert records[..|records|] == records;
    } else {
      assert records[..n] == records;
    }
  }

  /** Once a prefix of the archives fails, the whole list fails the same way. */
  lemma {:induction false} FoldArchivesFailureSticks(ps: seq<Policy>, archives: seq<Archive>, n: nat)
    requires WellFormed(ps) && n <= |archives|
    requires FoldArchives(ps, archives[..n]).Failure?
    ensures FoldArchives(ps, archives) == FoldArchives(ps, archives[..n])
    decreases |archives| - n
  {
    if n < |archives| {
      var m := |archives| - 1;
      assert archives[..m][..n] == archives[..n];
      if n < m {
        FoldArchivesFailureSticks(ps, archives[..m], n);
      }
    } else {
      assert archives[..n] == archives;
    }
  }

  /**
   * `run`'s record loop: munge each record of one archive and fold it into the
   * template; stops at the first record that cannot be munged.
   */
  method FoldArchiveRecords(template: PolicyTemplate, records: seq<EventRecord>)
    returns (failure: Option<RunError>)
    requires template.Valid()
    modifies template
    ensures template.Valid()
    ensures FoldRecords(old(template.statements), records)
         == if failure.None? then Success(template.statements) else Failure(failure.value)
  {
    ghost var start := template.statements;
    var r := 0;
    while r < |records|
      invariant 0 <= r <= |records|
      invariant FoldRecords(start, records[..r]) == Success(template.statements)
    {
      assert records[..r + 1][..r] == records[..r];
      assert FoldRecords(start, records[..r + 1]) == Step(template.statements, records[r]);
      var munged := MungeRecord(records[r]);
      if munged.MungeError? {
        FoldRecordsFailureSticks(start, records, r + 1);
        return Some(MungeFailed(records[r]));
      }
      var fragment := if munged.Emit? then Some(munged.policy) else None;
      template.Fold(fragment);
      r := r + 1;
    }
    assert records[..r] == records;
    failure := None;
  }

  /** `run`'s loops: a fresh template, each archive's records folded in order. */
  method Run(account: string, region: string, date: string, archives: seq<Archive>)
    returns (outcome: Result<seq<Policy>, RunError>)
    ensures outcome == RunSpec(account, region, date, archives)
  {
    var template := new PolicyTemplate();
    var prefix := BucketPrefix(account, region, date);
    if prefix.None? {
      return Failure(MalformedDate);
    }
    assert RunSpec(account, region, date, archives) == FoldArchives([], archives);
    var a := 0;
    while a < |archives|
      invariant 0 <= a <= |archives|
      invariant FoldArchives([], archives[..a]) == Success(template.statements)
    {
      var archive := archives[a];
      assert archives[..a + 1][..a] == archives[..a];
      if archive.records.None? {
        FoldArchivesFailureSticks([], archives, a + 1);
        return Failure(LoadFailed(archive.key));
      }
      var failure := FoldArchiveRecords(template, archive.records.value);
      if failure.Some? {
        FoldArchivesFailureSticks([], archives, a + 1);
        return Failure(failure.value);
      }
      a := a + 1;
    }
    assert archives[..a] == archives;
    outcome := Success(template.statements);
  }

  /** Every record of the archive has `eventName` and `eventSource`. */
  predicate RecordsOk(records: seq<EventRecord>)
  {
    forall j :: 0 <= j < |records| ==> HasMandatoryFields(records[j])
  }

  /** The archive loads and every record of it has the mandatory fields. */
  predicate ArchiveOk(archive: Archive)
  {
    archive.records.Some? && RecordsOk(archive.records.value)
  }

  /**
   * The records of an archive fold without error exactly when every one
   * has the mandatory fields; otherwise the error names the first record
   * that lacks one.
   */
  lemma {:induction false} FoldRecordsOutcome(ps: seq<Policy>, records: seq<EventRecord>)
    requires WellFormed(ps)
    ensures FoldRecords(ps, records).Success? <==> RecordsOk(records)
    ensures FoldRecords(ps, records).Failure? ==>
      exists k :: 0 <= k < |records| && RecordsOk(records[..k]) && !HasMandatoryFields(records[k])
        && FoldRecords(ps, records).error == MungeFailed(records[k])
    decreases |records|
  {
    if records != [] {
      var m := |records| - 1;
      var init := records[..m];
      FoldRecordsOutcome(ps, init);
      assert records == init + [records[m]];
      if FoldRecords(ps, init).Failure? {
        var k :| 0 <= k < m && RecordsOk(init[..k]) && !HasMandatoryFields(init[k])
          && FoldRecords(ps, init).error == MungeFailed(init[k]);
        assert init[..k] == records[..k];
      } else {
        assert records[..m] == init;
      }
    }
  }

  /**
   * The archives fold without error exactly when every one loads and all
   * their records have the mandatory fields.
   */
  lemma {:induction false} FoldArchivesSucceeds(ps: seq<Policy>, archives: seq<Archive>)
    requires WellFormed(ps)
    ensures FoldArchives(ps, archives).Success? <==> forall i :: 0 <= i < |archives| ==> ArchiveOk(archives[i])
    decreases |archives|
  {
    if archives != [] {
      var m := |archives| - 1;
      var init := archives[..m];
      FoldArchivesSucceeds(ps, init);
      assert archives == init + [archives[m]];
      var prev := FoldArchives(ps, init);
      if prev.Success? && archives[m].records.Some? {
        FoldRecordsOutcome(prev.value, archives[m].records.value);
      }
    }
  }

  /**
   * A run produces a policy list exactly when the date has three pieces,
   * every archive loads and every record names its event and source; the
   * list is then well formed: unique principals, sorted duplicate-free
   * actions.
   */
  lemma RunOutcome(account: string, region: string, date: string, archives: seq<Archive>)
    ensures var r := RunSpec(account, region, date, archives);
      && (r.Success? <==> multiset(date)['-'] >= 2 && forall i :: 0 <= i < |archives| ==> ArchiveOk(archives[i]))
      && (r.Success? ==> WellFormed(r.value))
  {
    FoldArchivesSucceeds([], archives);
  }

  /** `seen` extended, in order, by each element of `xs` not seen before. */
  function FirstSeenFrom(seen: seq<string>, xs: seq<string>): seq<string>
    decreases |xs|
  {
    if xs == [] then seen else AddIfAbsent(FirstSeenFrom(seen, xs[..|xs| - 1]), xs[|xs| - 1])
  }

  /**
   * Extending a duplicate-free list by first occurrences keeps it
   * duplicate-free, keeps it as a prefix, and adds exactly the new elements.
   */
  lemma {:induction false} FirstSeenFromSpec(seen: seq<string>, xs: seq<string>)
    requires Distinct(seen)
    ensures Distinct(FirstSeenFrom(seen, xs))
    ensures seen <= FirstSeenFrom(seen, xs)
    ensures forall y :: y in FirstSeenFrom(seen, xs) <==> y in seen || y in xs
    decreases |xs|
  {
    if xs != [] {
      var m := |xs| - 1;
      FirstSeenFromSpec(seen, xs[..m]);
      assert xs == xs[..m] + [xs[m]];
      var prev := FirstSeenFrom(seen, xs[..m]);
      if xs[m] !in prev {
        assert Distinct(prev + [xs[m]]);
      }
    }
  }

  lemma {:induction false} FirstSeenFromAppend(seen: seq<string>, xs: seq<string>, ys: seq<string>)
    ensures FirstSeenFrom(seen, xs + ys) == FirstSeenFrom(FirstSeenFrom(seen, xs), ys)
    decreases |ys|
  {
    if ys == [] {
      assert xs + ys == xs;
    } else {
      var m := |ys| - 1;
      FirstSeenFromAppend(seen, xs, ys[..m]);
      assert (xs + ys)[..|xs + ys| - 1] == xs + ys[..m];
    }
  }

  /** The principal ARNs of the records that munge to a policy, in order. */
  function EmittedArns(records: seq<EventRecord>): seq<string>
    decreases |records|
  {
    if records == [] then []
    else
      var last := records[|records| - 1];
      EmittedArns(records[..|records| - 1])
        + (if HasMandatoryFields(last) && ArnOf(last).Some? then [ArnOf(last).value] else [])
  }

  /** The principal ARNs of every loaded archive, in listing order. */
  function ArchiveArns(archives: seq<Archive>): seq<string>
    decreases |archives|
  {
    if archives == [] then []
    else
      var last := archives[|archives| - 1];
      ArchiveArns(archives[..|archives| - 1])
        + (if last.records.Some? then EmittedArns(last.records.value) else [])
  }

  /** Folding records extends the template's principals by first occurrence. */
  lemma {:induction false} FoldRecordsPrincipals(ps: seq<Policy>, records: seq<EventRecord>)
    requires WellFormed(ps) && FoldRecords(ps, records).Success?
    ensures Principals(FoldRecords(ps, records).value) == FirstSeenFrom(Principals(ps), EmittedArns(records))
    decreases |records|
  {
    if records != [] {
      var m := |records| - 1;
      var last := records[m];
      FoldRecordsPrincipals(ps, records[..m]);
      var qs := FoldRecords(ps, records[..m]).value;
      var before := EmittedArns(records[..m]);
      match Munge(last)
      case Skip =>
        assert EmittedArns(records) == before + [];
        assert before + [] == before;
      case Emit(p) =>
        FoldPrincipals(qs, p);
        FirstSeenFromAppend(Principals(ps), before, [ArnOf(last).value]);
        assert [ArnOf(last).value][..0] == [];
    }
  }

  /** Folding archives extends the template's principals by first occurrence. */
  lemma {:induction false} FoldArchivesPrincipals(ps: seq<Policy>, archives: seq<Archive>)
    requires WellFormed(ps) && FoldArchives(ps, archives).Success?
    ensures Principals(FoldArchives(ps, archives).value) == FirstSeenFrom(Principals(ps), ArchiveArns(archives))
    decreases |archives|
  {
    if archives != [] {
      var m := |archives| - 1;
      var last := archives[m];
      FoldArchivesPrincipals(ps, archives[..m]);
      var qs := FoldArchives(ps, archives[..m]).value;
      FoldRecordsPrincipals(qs, last.records.value);
      FirstSeenFromAppend(Principals(ps), ArchiveArns(archives[..m]), EmittedArns(last.records.value));
    }
  }

  /**
   * The output holds one policy per distinct principal ARN of the input,
   * in the order each was first seen; no principal is ever collapsed or
   * split.
   */
  lemma RunPrincipalsFirstSeen(account: string, region: string, date: string, archives: seq<Archive>)
    requires RunSpec(account, region, date, archives).Success?
    ensures Principals(RunSpec(account, region, date, archives).value) == FirstSeenFrom([], ArchiveArns(archives))
    ensures forall y :: y in Principals(RunSpec(account, region, date, archives).value) <==> y in ArchiveArns(archives)
  {
    assert RunSpec(account, region, date, archives) == FoldArchives([], archives);
    FoldArchivesPrincipals([], archives);
    assert Principals([]) == [];
    FirstSeenFromSpec([], ArchiveArns(archives));
  }

  /**
   * A run in which no record yields a policy (no archives, empty
   * archives, or only records without `userIdentity.arn`) outputs `[]`.
   */
  lemma RunWithoutPrincipalsIsEmpty(account: string, region: string, date: string, archives: seq<Archive>)
    requires RunSpec(account, region, date, archives).Success?
    requires ArchiveArns(archives) == []
    ensures RunSpec(account, region, date, archives).value == []
  {
    RunPrincipalsFirstSeen(account, region, date, archives);
    assert |Principals(RunSpec(account, region, date, archives).value)| == 0;
  }
}
