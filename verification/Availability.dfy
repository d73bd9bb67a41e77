/** Which forecast hours are available: the serial scan over candidate sources, and
    the round-based search that probes one network operation per key and round. */
module Availability {
  import opened Basics

  datatype ProbeMethod = Head | NomadsFirstByte

  datatype ProbeKey = ProbeKey(probeMethod: ProbeMethod, url: string)

  datatype Source = Nomads | OtherSource(name: string)

  datatype ResolvedUrl = ResolvedUrl(source: Source, gribUrl: string, idxUrl: Option<string>)

  function KeyOf(r: ResolvedUrl): ProbeKey {
    if r.source == Nomads then ProbeKey(NomadsFirstByte, r.gribUrl)
    else ProbeKey(Head, if r.idxUrl.Some? then r.idxUrl.value else r.gribUrl)
  }

  datatype Candidate = Candidate(hour: nat, sources: seq<ResolvedUrl>)

  /** The answer of the network, which depends on the probe key alone. */
  type Probe = ProbeKey -> bool

  type Results = map<ProbeKey, bool>

  // ---- what both searches compute ----

  /** Sources before position n all answer no. */
  ghost predicate FailsBefore(c: Candidate, probe: Probe, n: nat) {
    n <= |c.sources| && forall j :: 0 <= j < n ==> !probe(KeyOf(c.sources[j]))
  }

  ghost predicate IsAvailable(c: Candidate, probe: Probe) {
    exists j :: 0 <= j < |c.sources| && probe(KeyOf(c.sources[j]))
  }

  ghost function AvailableHours(candidates: seq<Candidate>, probe: Probe): seq<nat> {
    if candidates == [] then []
    else
      var last := candidates[|candidates| - 1];
      AvailableHours(candidates[..|candidates| - 1], probe) + if IsAvailable(last, probe) then [last.hour] else []
  }

  /** NOMADS answers for the first byte of its file, any other source for its index, or
      for its file if it has no index. */
  ghost predicate Answers(s: ResolvedUrl, probe: Probe) {
    match s
    case ResolvedUrl(Nomads, url, _) => probe(ProbeKey(NomadsFirstByte, url))
    case ResolvedUrl(OtherSource(_), _, Some(index)) => probe(ProbeKey(Head, index))
    case ResolvedUrl(OtherSource(_), url, None) => probe(ProbeKey(Head, url))
  }

  /** The available hours are those of the candidates with a source that answers. */
  lemma {:induction false} AvailableHoursExact(candidates: seq<Candidate>, probe: Probe, hour: nat)
    ensures hour in AvailableHours(candidates, probe) <==>
      exists i, s :: 0 <= i < |candidates| && candidates[i].hour == hour && s in candidates[i].sources && Answers(s, probe)
  {
    if candidates != [] {
      var front, last := candidates[..|candidates| - 1], candidates[|candidates| - 1];
      AvailableHoursExact(front, probe, hour);
      AvailableExactly(last, probe);
      hide IsAvailable, Answers;
      if hour in AvailableHours(front, probe) {
        var i, s :| 0 <= i < |front| && front[i].hour == hour && s in front[i].sources && Answers(s, probe);
        assert candidates[i] == front[i];
      }
      if i, s :| 0 <= i < |candidates| && candidates[i].hour == hour && s in candidates[i].sources && Answers(s, probe) {
        if i < |front| { assert front[i] == candidates[i]; }
      }
    }
  }

  lemma AvailableExactly(c: Candidate, probe: Probe)
    ensures IsAvailable(c, probe) <==> exists s :: s in c.sources && Answers(s, probe)
  {
    forall s: ResolvedUrl ensures Answers(s, probe) <==> probe(KeyOf(s)) {}
    if j :| 0 <= j < |c.sources| && probe(KeyOf(c.sources[j])) { assert c.sources[j] in c.sources; }
  }

  /** The source at position j must be asked: everything before it fails. */
  ghost predicate Needed(c: Candidate, probe: Probe, j: nat, key: ProbeKey) {
    j < |c.sources| && FailsBefore(c, probe, j) && KeyOf(c.sources[j]) == key
  }

  ghost predicate NeededWithin(c: Candidate, probe: Probe, n: nat, key: ProbeKey) {
    exists j: nat :: j < n && Needed(c, probe, j, key)
  }

  ghost predicate NeededFor(c: Candidate, probe: Probe, key: ProbeKey) {
    NeededWithin(c, probe, |c.sources|, key)
  }

  /** Some candidate must ask this key before its answer is known. */
  ghost predicate NeededBy(candidates: seq<Candidate>, probe: Probe, key: ProbeKey) {
    exists i :: 0 <= i < |candidates| && NeededFor(candidates[i], probe, key)
  }

  /** The recorded answers are the network's answers. */
  ghost predicate Truthful(results: Results, probe: Probe) {
    forall key :: key in results ==> results[key] == probe(key)
  }

  /** log lists, once each, exactly the keys answered beyond those known at first. */
  ghost predicate Logged(log: seq<ProbeKey>, known: Results, results: Results) {
    && NoRepeats(log)
    && known.Keys <= results.Keys
    && forall key :: key in log <==> key in results && key !in known
  }

  lemma LoggedStep(log: seq<ProbeKey>, known: Results, results: Results, key: ProbeKey, answer: bool)
    requires Logged(log, known, results) && key !in results
    ensures Logged(log + [key], known, results[key := answer])
  {
    var longer := log + [key];
    forall k ensures k in longer <==> k in results[key := answer] && k !in known {
      assert k in longer <==> k in log || k == key;
    }
  }

  // ---- the serial scan ----

  /** One more source that must be asked. */
  lemma NeededNext(c: Candidate, probe: Probe, j: nat, key: ProbeKey)
    requires j < |c.sources| && FailsBefore(c, probe, j)
    ensures NeededWithin(c, probe, j + 1, key) <==> NeededWithin(c, probe, j, key) || key == KeyOf(c.sources[j])
  {
    assert Needed(c, probe, j, KeyOf(c.sources[j]));
  }

  /** After a yes, nothing further must be asked. */
  lemma NeededStops(c: Candidate, probe: Probe, j: nat, key: ProbeKey)
    requires j < |c.sources| && probe(KeyOf(c.sources[j]))
    ensures NeededFor(c, probe, key) <==> NeededWithin(c, probe, j + 1, key)
  {
    forall k: nat | Needed(c, probe, k, key) ensures k <= j {
    }
  }

  /** Ask the sources of one candidate in order, reusing recorded answers. */
  method AnySource(c: Candidate, results: Results, probe: Probe, ghost known: Results, ghost log: seq<ProbeKey>)
    returns (found: bool, results': Results, ghost log': seq<ProbeKey>)
    requires Truthful(results, probe) && Logged(log, known, results)
    ensures found == IsAvailable(c, probe)
    ensures Truthful(results', probe) && Logged(log', known, results')
    ensures forall key :: key in results' <==> key in results || NeededFor(c, probe, key)
  {
    results', log' := results, log;
    for j := 0 to |c.sources|
      invariant Truthful(results', probe) && Logged(log', known, results')
      invariant FailsBefore(c, probe, j)
      invariant forall key :: key in results' <==> key in results || NeededWithin(c, probe, j, key)
    {
      var key := KeyOf(c.sources[j]);
      forall k { NeededNext(c, probe, j, k); }
      if key !in results' {
        LoggedStep(log', known, results', key, probe(key));
        results', log' := results'[key := probe(key)], log' + [key];
      }
      if results'[key] {
        forall k { NeededStops(c, probe, j, k); }
        return true, results', log';
      }
    }
    return false, results', log';
  }

  /** The serial scan: the available hours in order, asking exactly the needed keys. */
  method AvailableHoursSerial(candidates: seq<Candidate>, known: Results, probe: Probe)
    returns (hours: seq<nat>, results: Results, ghost log: seq<ProbeKey>)
    requires Truthful(known, probe)
    ensures hours == AvailableHours(candidates, probe)
    ensures Truthful(results, probe)
    ensures forall key :: key in results <==> key in known || NeededBy(candidates, probe, key)
    ensures Logged(log, known, results)
  {
    hours, results, log := [], known, [];
    for i := 0 to |candidates|
      invariant hours == AvailableHours(candidates[..i], probe)
      invariant Truthful(results, probe) && Logged(log, known, results)
      invariant forall key :: key in results <==> key in known || NeededBy(candidates[..i], probe, key)
    {
      var found: bool;
      found, results, log := AnySource(candidates[i], results, probe, known, log);
      assert candidates[..i + 1][..i] == candidates[..i];
      ghost var longer := candidates[..i + 1];
      forall key
        ensures NeededBy(longer, probe, key) <==>
                NeededBy(candidates[..i], probe, key) || NeededFor(candidates[i], probe, key)
      {
        NeededByAppend(longer, probe, key);
      }
      if found {
        hours := hours + [candidates[i].hour];
      }
    }
    assert candidates[..|candidates|] == candidates;
  }

  lemma NeededByAppend(candidates: seq<Candidate>, probe: Probe, key: ProbeKey)
    requires candidates != []
    ensures NeededBy(candidates, probe, key) <==>
            || NeededBy(candidates[..|candidates| - 1], probe, key)
            || NeededFor(candidates[|candidates| - 1], probe, key)
  {
    var front := candidates[..|candidates| - 1];
    assert forall i :: 0 <= i < |front| ==> front[i] == candidates[i];
  }

  // ---- the round-based search ----

  datatype State = State(candidate: Candidate, next: nat, available: bool)

  /** Everything before next was asked and failed; an available state stands at a
      source that said yes. */
  ghost predicate Sound(s: State, probe: Probe, results: Results) {
    && FailsBefore(s.candidate, probe, s.next)
    && (forall j :: 0 <= j < s.next ==> KeyOf(s.candidate.sources[j]) in results)
    && (s.available ==> s.next < |s.candidate.sources| && KeyOf(s.candidate.sources[s.next]) in results
                        && probe(KeyOf(s.candidate.sources[s.next])))
  }

  predicate Unresolved(s: State) { !s.available && s.next < |s.candidate.sources| }

  /** A state that recorded answers cannot move any further. */
  ghost predicate Waiting(s: State, results: Results) {
    Unresolved(s) ==> KeyOf(s.candidate.sources[s.next]) !in results
  }

  ghost predicate AllSound(states: seq<State>, candidates: seq<Candidate>, probe: Probe, results: Results) {
    && |states| == |candidates|
    && forall i :: 0 <= i < |states| ==> states[i].candidate == candidates[i] && Sound(states[i], probe, results)
  }

  /** Consume recorded answers for one candidate. */
  method Advance(s: State, results: Results, ghost probe: Probe) returns (s': State)
    requires Truthful(results, probe) && Sound(s, probe, results)
    ensures s'.candidate == s.candidate && Sound(s', probe, results) && Waiting(s', results)
  {
    s' := s;
    while Unresolved(s')
      invariant s'.candidate == s.candidate && Sound(s', probe, results)
      decreases |s.candidate.sources| - s'.next, !s'.available
    {
      var key := KeyOf(s'.candidate.sources[s'.next]);
      if key !in results {
        break;
      } else if results[key] {
        s' := s'.(available := true);
      } else {
        s' := s'.(next := s'.next + 1);
      }
    }
  }

  method AdvanceAll(states: seq<State>, results: Results, ghost candidates: seq<Candidate>, ghost probe: Probe)
    returns (states': seq<State>)
    requires Truthful(results, probe) && AllSound(states, candidates, probe, results)
    ensures AllSound(states', candidates, probe, results)
    ensures forall i :: 0 <= i < |states'| ==> Waiting(states'[i], results)
  {
    states' := states;
    for i := 0 to |states|
      invariant AllSound(states', candidates, probe, results) && |states'| == |states|
      invariant forall k :: 0 <= k < i ==> Waiting(states'[k], results)
    {
      var s := Advance(states'[i], results, probe);
      states' := states'[i := s];
    }
  }

  /** The distinct keys the unresolved states wait for. */
  method CollectPending(states: seq<State>) returns (pending: seq<ProbeKey>)
    ensures NoRepeats(pending)
    ensures forall key :: key in pending ==>
              exists i :: 0 <= i < |states| && Unresolved(states[i]) && WaitsFor(states[i], key)
    ensures forall i :: 0 <= i < |states| && Unresolved(states[i]) ==> KeyOf(states[i].candidate.sources[states[i].next]) in pending
  {
    pending := [];
    var seen: set<ProbeKey> := {};
    for i := 0 to |states|
      invariant NoRepeats(pending) && forall key :: key in seen <==> key in pending
      invariant forall key :: key in pending ==> exists k :: 0 <= k < i && Unresolved(states[k]) && WaitsFor(states[k], key)
      invariant forall k :: 0 <= k < i && Unresolved(states[k]) ==> KeyOf(states[k].candidate.sources[states[k].next]) in pending
    {
      if Unresolved(states[i]) {
        var key := KeyOf(states[i].candidate.sources[states[i].next]);
        if key !in seen {
          assert WaitsFor(states[i], key);
          seen, pending := seen + {key}, pending + [key];
        }
      }
    }
  }

  ghost predicate WaitsFor(s: State, key: ProbeKey) {
    s.next < |s.candidate.sources| && KeyOf(s.candidate.sources[s.next]) == key
  }

  /** One round of probes, in any order: the keys are distinct and unanswered. */
  method ProbeAll(pending: seq<ProbeKey>, results: Results, probe: Probe, ghost known: Results, ghost log: seq<ProbeKey>)
    returns (results': Results, ghost log': seq<ProbeKey>)
    requires Truthful(results, probe) && Logged(log, known, results)
    requires NoRepeats(pending) && forall key :: key in pending ==> key !in results
    ensures Truthful(results', probe) && Logged(log', known, results')
    ensures forall key :: key in results' <==> key in results || key in pending
  {
    results', log' := results, log;
    for i := 0 to |pending|
      invariant Truthful(results', probe) && Logged(log', known, results')
      invariant forall key :: key in results' <==> key in results || key in pending[..i]
    {
      var key := pending[i];
      assert key !in pending[..i];
      assert pending[..i + 1] == pending[..i] + [key];
      LoggedStep(log', known, results', key, probe(key));
      results', log' := results'[key := probe(key)], log' + [key];
    }
    assert pending[..|pending|] == pending;
  }

  ghost function AllKeys(candidates: seq<Candidate>): set<ProbeKey> {
    set i, j | 0 <= i < |candidates| && 0 <= j < |candidates[i].sources| :: KeyOf(candidates[i].sources[j])
  }

  /** A key some sound state waits for is needed. */
  lemma WaitingIsNeeded(states: seq<State>, candidates: seq<Candidate>, probe: Probe, results: Results, key: ProbeKey)
    requires AllSound(states, candidates, probe, results)
    requires exists i :: 0 <= i < |states| && Unresolved(states[i]) && WaitsFor(states[i], key)
    ensures NeededBy(candidates, probe, key) && key in AllKeys(candidates)
  {
    var i :| 0 <= i < |states| && Unresolved(states[i]) && WaitsFor(states[i], key);
    assert Needed(candidates[i], probe, states[i].next, key);
    assert NeededFor(candidates[i], probe, key);
  }

  /** A resolved state knows its candidate's answer and every key it needed. */
  lemma ResolvedKnows(s: State, probe: Probe, results: Results, key: ProbeKey)
    requires Sound(s, probe, results) && !Unresolved(s)
    ensures s.available == IsAvailable(s.candidate, probe)
    ensures NeededFor(s.candidate, probe, key) ==> key in results
  {
    if NeededFor(s.candidate, probe, key) {
      var j: nat :| j < |s.candidate.sources| && Needed(s.candidate, probe, j, key);
      assert j <= s.next;
    }
  }

  lemma SoundWithMore(states: seq<State>, candidates: seq<Candidate>, probe: Probe, results: Results, more: Results)
    requires AllSound(states, candidates, probe, results) && results.Keys <= more.Keys
    ensures AllSound(states, candidates, probe, more)
  {
  }

  method ReportAvailable(states: seq<State>, ghost candidates: seq<Candidate>, ghost probe: Probe) returns (hours: seq<nat>)
    requires |states| == |candidates|
    requires forall i :: 0 <= i < |states| ==> states[i].candidate == candidates[i]
    requires forall i :: 0 <= i < |states| ==> states[i].available == IsAvailable(candidates[i], probe)
    ensures hours == AvailableHours(candidates, probe)
  {
    hours := [];
    for i := 0 to |states|
      invariant hours == AvailableHours(candidates[..i], probe)
    {
      assert candidates[..i + 1][..i] == candidates[..i];
      if states[i].available {
        hours := hours + [states[i].candidate.hour];
      }
    }
    assert candidates[..|candidates|] == candidates;
  }

  /** The round-based search: same hours in the same order as the serial scan, the
      same set of keys asked, each of them once. Every round but the last answers a
      new key, so it terminates. */
  method AvailableHoursParallel(candidates: seq<Candidate>, known: Results, probe: Probe)
    returns (hours: seq<nat>, results: Results, ghost log: seq<ProbeKey>)
    requires Truthful(known, probe)
    ensures hours == AvailableHours(candidates, probe)
    ensures Truthful(results, probe)
    ensures forall key :: key in results <==> key in known || NeededBy(candidates, probe, key)
    ensures Logged(log, known, results)
  {
    results, log := known, [];
    var states := seq(|candidates|, i requires 0 <= i < |candidates| => State(candidates[i], 0, false));
    while true
      invariant AllSound(states, candidates, probe, results)
      invariant Truthful(results, probe) && Logged(log, known, results)
      invariant forall key :: key in results ==> key in known || NeededBy(candidates, probe, key)
      decreases AllKeys(candidates) - results.Keys
    {
      states := AdvanceAll(states, results, candidates, probe);
      var pending := CollectPending(states);
      forall key | key in pending ensures NeededBy(candidates, probe, key) && key in AllKeys(candidates) && key !in results {
        WaitingIsNeeded(states, candidates, probe, results, key);
      }
      if pending == [] {
        break;
      }
      ghost var before := results;
      results, log := ProbeAll(pending, results, probe, known, log);
      assert pending[0] in results && pending[0] !in before && pending[0] in AllKeys(candidates);
      SoundWithMore(states, candidates, probe, before, results);
    }
    forall i | 0 <= i < |states| ensures states[i].available == IsAvailable(candidates[i], probe) {
      ResolvedKnows(states[i], probe, results, ProbeKey(Head, ""));
    }
    forall key | NeededBy(candidates, probe, key) ensures key in results {
      var i :| 0 <= i < |candidates| && NeededFor(candidates[i], probe, key);
      ResolvedKnows(states[i], probe, results, key);
    }
    hours := ReportAvailable(states, candidates, probe);
  }
}
