/** The bookkeeping of the XML test reporter (test_xml_reporter.cpp): test
    cases, the suites that collect them, and the reporter's suite table.

    A time point is a signed 64-bit count since the clock's epoch, as
    `std::chrono::system_clock::time_point` holds it; elapsed times are
    unbounded integers. The reporter's `std::map` from suite name to suite
    is a sequence of suites with distinct names, looked up front to back:
    every aggregate here is a sum or a minimum, which does not depend on
    the order of the suites. */
module XmlReporter {
  import opened Wrappers

  const TimeMin: int := -0x8000_0000_0000_0000
  /** `time_point::max()`. */
  const TimeMax: int := 0x7FFF_FFFF_FFFF_FFFF

  type TimePoint = t: int | TimeMin <= t <= TimeMax

  /** `operator+` on optionals: the sum when both sides hold a value,
      otherwise nothing. */
  function OptionalSum(a: Option<int>, b: Option<int>): (r: Option<int>)
    ensures r.Some? <==> a.Some? && b.Some?
    ensures r.Some? ==> r.value == a.value + b.value
  {
    if a.None? || b.None? then None else Some(a.value + b.value)
  }

  /** A test case: `XmlTest`, built from one `Test::Result`. */
  datatype Test = Test(
    name: string,
    notes: seq<string>,
    failures: seq<string>,
    assertions: nat,
    timestamp: TimePoint,
    elapsed: Option<int>)

  /** `passed()`: no failure was recorded. */
  predicate Passed(t: Test)
  {
    t.failures == []
  }

  /** `failed()`: some failure was recorded. */
  predicate Failed(t: Test)
  {
    t.failures != []
  }

  const SelfClose: string := " />\n"
  const OpenEnd: string := ">\n"

  /** What `XmlTest::render` writes after the attributes: the element is
      closed at once when there is nothing to list inside it, so only a
      passed test case can be self-closing. */
  function TestTagEnd(t: Test): (r: string)
    ensures r == SelfClose <==> t.failures == [] && t.notes == []
    ensures r == SelfClose ==> Passed(t)
    ensures r == SelfClose || r == OpenEnd
  {
    if t.failures == [] && t.notes == [] then SelfClose else OpenEnd
  }

  // ---------------------------------------------------------------------
  // the aggregates of one suite

  /** `count_if(passed)`. */
  function CountPassed(ts: seq<Test>): (n: nat)
    ensures n <= |ts|
  {
    if ts == [] then 0 else (if Passed(ts[0]) then 1 else 0) + CountPassed(ts[1..])
  }

  /** `count_if(failed)`. */
  function CountFailed(ts: seq<Test>): (n: nat)
    ensures n <= |ts|
  {
    if ts == [] then 0 else (if Failed(ts[0]) then 1 else 0) + CountFailed(ts[1..])
  }

  /** Every test case is counted once, as passed or as failed. */
  lemma {:induction false} PassedPlusFailed(ts: seq<Test>)
    ensures CountPassed(ts) + CountFailed(ts) == |ts|
  {
    if ts != [] {
      PassedPlusFailed(ts[1..]);
    }
  }

  /** No failed test case exactly when every test case passed. */
  lemma {:induction false} NoneFailed(ts: seq<Test>)
    ensures CountFailed(ts) == 0 <==> forall i :: 0 <= i < |ts| ==> Passed(ts[i])
  {
    if ts != [] {
      NoneFailed(ts[1..]);
      assert forall i :: 1 <= i < |ts| ==> ts[i] == ts[1..][i - 1];
    }
  }

  /** The oldest time stamp: `transform_reduce` with `min`, starting from
      `time_point::max()`. */
  function Oldest(ts: seq<Test>): (r: TimePoint)
    ensures forall i :: 0 <= i < |ts| ==> r <= ts[i].timestamp
    ensures ts == [] ==> r == TimeMax
    ensures ts != [] ==> exists i :: 0 <= i < |ts| && r == ts[i].timestamp
  {
    if ts == [] then TimeMax
    else
      var rest := Oldest(ts[1..]);
      assert forall i :: 1 <= i < |ts| ==> ts[i] == ts[1..][i - 1];
      if ts[0].timestamp <= rest then ts[0].timestamp else rest
  }

  /** The sum of the elapsed times that are present. */
  function SumElapsed(ts: seq<Test>): int
  {
    if ts == [] then 0
    else (if ts[0].elapsed.Some? then ts[0].elapsed.value else 0) + SumElapsed(ts[1..])
  }

  /** The cumulative elapsed time: `transform_reduce` with the optional
      `operator+`, starting from zero. */
  function Elapsed(ts: seq<Test>): (r: Option<int>)
    ensures r.None? <==> exists i :: 0 <= i < |ts| && ts[i].elapsed.None?
    ensures r.Some? ==> r.value == SumElapsed(ts)
  {
    if ts == [] then Some(0)
    else
      var rest := Elapsed(ts[1..]);
      assert forall i :: 1 <= i < |ts| ==> ts[i] == ts[1..][i - 1];
      OptionalSum(ts[0].elapsed, rest)
  }

  /** `XmlTestsuite`: a name and the test cases recorded under it. */
  datatype Suite = Suite(name: string, results: seq<Test>)

  /** `XmlTestsuite::record`: append one test case. */
  function SuiteRecord(s: Suite, t: Test): (r: Suite)
    ensures r.name == s.name && |r.results| == |s.results| + 1
    ensures r.results[..|s.results|] == s.results && r.results[|s.results|] == t
  {
    Suite(s.name, s.results + [t])
  }

  /** What `XmlTestsuite::render` writes after the attributes: the element
      is closed at once exactly when the suite is empty. */
  function SuiteTagEnd(s: Suite): (r: string)
    ensures r == SelfClose <==> |s.results| == 0
    ensures r == SelfClose || r == OpenEnd
  {
    if s.results == [] then SelfClose else OpenEnd
  }

  lemma {:induction false} CountAppend(ts: seq<Test>, t: Test)
    ensures CountPassed(ts + [t]) == CountPassed(ts) + (if Passed(t) then 1 else 0)
    ensures CountFailed(ts + [t]) == CountFailed(ts) + (if Failed(t) then 1 else 0)
  {
    if ts != [] {
      assert (ts + [t])[1..] == ts[1..] + [t];
      CountAppend(ts[1..], t);
    }
  }

  lemma {:induction false} OldestAppend(ts: seq<Test>, t: Test)
    ensures Oldest(ts + [t]) == if t.timestamp <= Oldest(ts) then t.timestamp else Oldest(ts)
  {
    if ts != [] {
      assert (ts + [t])[1..] == ts[1..] + [t];
      OldestAppend(ts[1..], t);
    }
  }

  lemma {:induction false} ElapsedAppend(ts: seq<Test>, t: Test)
    ensures Elapsed(ts + [t]) == OptionalSum(Elapsed(ts), t.elapsed)
  {
    if ts != [] {
      assert (ts + [t])[1..] == ts[1..] + [t];
      ElapsedAppend(ts[1..], t);
    }
  }

  /** Recording a test case into a suite moves each aggregate by exactly
      that test case: one more test, one more passed or failed, the older
      time stamp, and the elapsed time added. */
  lemma SuiteRecordAggregates(s: Suite, t: Test)
    ensures |SuiteRecord(s, t).results| == |s.results| + 1
    ensures CountPassed(SuiteRecord(s, t).results) == CountPassed(s.results) + (if Passed(t) then 1 else 0)
    ensures CountFailed(SuiteRecord(s, t).results) == CountFailed(s.results) + (if Failed(t) then 1 else 0)
    ensures Oldest(SuiteRecord(s, t).results)
         == if t.timestamp <= Oldest(s.results) then t.timestamp else Oldest(s.results)
    ensures Elapsed(SuiteRecord(s, t).results) == OptionalSum(Elapsed(s.results), t.elapsed)
  {
    CountAppend(s.results, t);
    OldestAppend(s.results, t);
    ElapsedAppend(s.results, t);
  }

  // ---------------------------------------------------------------------
  // the reporter's suite table

  function Names(suites: seq<Suite>): (r: set<string>)
    ensures forall i :: 0 <= i < |suites| ==> suites[i].name in r
  {
    if suites == [] then {} else {suites[0].name} + Names(suites[1..])
  }

  /** Map keys are distinct. */
  predicate UniqueNames(suites: seq<Suite>)
  {
    forall i, j :: 0 <= i < j < |suites| ==> suites[i].name != suites[j].name
  }

  /** The suite recorded under a name, if any: `testsuites.find(name)`. */
  function Lookup(suites: seq<Suite>, name: string): (r: Option<Suite>)
    ensures r.None? <==> name !in Names(suites)
    ensures r.Some? ==> r.value.name == name
  {
    if suites == [] then None
    else if suites[0].name == name then Some(suites[0])
    else Lookup(suites[1..], name)
  }

  /** The suite `try_emplace(name, name)` yields: the one already there, or
      a new empty suite named after the key. */
  function SuiteFor(suites: seq<Suite>, name: string): (r: Suite)
    ensures r.name == name
  {
    match Lookup(suites, name)
    case Some(s) => s
    case None => Suite(name, [])
  }

  /** `XmlReporter::record`: record the result into the suite of that name,
      creating the suite on first use. No key is added but the name, and a
      suite is appended only when the name is new. */
  function Record(suites: seq<Suite>, name: string, t: Test): (r: seq<Suite>)
    ensures Names(r) == Names(suites) + {name}
    ensures |r| == |suites| + (if name in Names(suites) then 0 else 1)
  {
    if suites == [] then [Suite(name, [t])]
    else if suites[0].name == name then [SuiteRecord(suites[0], t)] + suites[1..]
    else [suites[0]] + Record(suites[1..], name, t)
  }

  /** The suite of that name gains the test case (being created first when
      it is new), and every other suite is as before. */
  lemma {:induction false} RecordLookup(suites: seq<Suite>, name: string, t: Test)
    ensures Lookup(Record(suites, name, t), name) == Some(SuiteRecord(SuiteFor(suites, name), t))
    ensures forall n :: n != name ==> Lookup(Record(suites, name, t), n) == Lookup(suites, n)
  {
    if suites != [] && suites[0].name != name {
      RecordLookup(suites[1..], name, t);
    }
  }

  /** The table stays a map: recording never duplicates a key. */
  lemma {:induction false} RecordUnique(suites: seq<Suite>, name: string, t: Test)
    requires UniqueNames(suites)
    ensures UniqueNames(Record(suites, name, t))
  {
    if suites != [] && suites[0].name != name {
      RecordUnique(suites[1..], name, t);
      RecordLookup(suites[1..], name, t);
      var r := Record(suites, name, t);
      forall j | 1 <= j < |r|
        ensures r[0].name != r[j].name
      {
        assert r[j] == Record(suites[1..], name, t)[j - 1];
        NotInNames(suites[1..], suites[0].name);
      }
    }
  }

  /** A name no suite carries is not in the table. */
  lemma {:induction false} NotInNames(suites: seq<Suite>, n: string)
    requires forall i :: 0 <= i < |suites| ==> suites[i].name != n
    ensures n !in Names(suites)
  {
    if suites != [] {
      NotInNames(suites[1..], n);
    }
  }

  /** `XmlReporter::tests()`. */
  function TotalTests(suites: seq<Suite>): nat
  {
    if suites == [] then 0 else |suites[0].results| + TotalTests(suites[1..])
  }

  /** `XmlReporter::passed()`. */
  function TotalPassed(suites: seq<Suite>): (n: nat)
    ensures n <= TotalTests(suites)
  {
    if suites == [] then 0 else CountPassed(suites[0].results) + TotalPassed(suites[1..])
  }

  /** `XmlReporter::failed()`. */
  function TotalFailed(suites: seq<Suite>): (n: nat)
    ensures n <= TotalTests(suites)
  {
    if suites == [] then 0 else CountFailed(suites[0].results) + TotalFailed(suites[1..])
  }

  /** Over all suites, too, every test case is passed or failed. */
  lemma {:induction false} TotalsAdd(suites: seq<Suite>)
    ensures TotalPassed(suites) + TotalFailed(suites) == TotalTests(suites)
  {
    if suites != [] {
      PassedPlusFailed(suites[0].results);
      TotalsAdd(suites[1..]);
    }
  }

  /** Recording one result adds one test, and one passed or one failed. */
  lemma {:induction false} RecordTotals(suites: seq<Suite>, name: string, t: Test)
    ensures TotalTests(Record(suites, name, t)) == TotalTests(suites) + 1
    ensures TotalPassed(Record(suites, name, t)) == TotalPassed(suites) + (if Passed(t) then 1 else 0)
    ensures TotalFailed(Record(suites, name, t)) == TotalFailed(suites) + (if Failed(t) then 1 else 0)
  {
    if suites == [] {
      CountAppend([], t);
      assert [] + [t] == [t];
    } else if suites[0].name == name {
      SuiteRecordAggregates(suites[0], t);
      assert (([SuiteRecord(suites[0], t)] + suites[1..])[1..]) == suites[1..];
    } else {
      RecordTotals(suites[1..], name, t);
      assert ([suites[0]] + Record(suites[1..], name, t))[1..] == Record(suites[1..], name, t);
    }
  }
}
