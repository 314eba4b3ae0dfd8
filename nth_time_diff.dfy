/** The NthTimeDiff node of the snewpdag alert DAG: it joins two upstream
    sources, remembers for each the nth earliest time of its last alert, and
    sends downstream the difference of the two times while both sources are
    valid, or a single revocation when a valid source withdraws. */
module NthTimeDiffNode {
  import opened OrderStatistic

  datatype Option<T> = None | Some(value: T)

  /** Lifecycle tag of an event. Unrecognized carries any other tag by name;
      ParseAction never builds it for one of the four lifecycle names. */
  datatype Action = Alert | Revoke | Reset | Report | Unrecognized(name: string)

  /** The tag of data['action'] as update compares it with 'alert' and
      'revoke'. */
  function ParseAction(name: string): (a: Action)
    ensures a == Alert <==> name == "alert"
    ensures a == Revoke <==> name == "revoke"
    ensures a.Unrecognized? <==> name !in {"alert", "revoke", "reset", "report"}
    ensures a.Unrecognized? ==> a.name == name
  {
    match name
    case "alert" => Alert
    case "revoke" => Revoke
    case "reset" => Reset
    case "report" => Report
    case _ => Unrecognized(name)
  }

  /** One entry of a provenance chain: the name of the node that sent it. */
  datatype Provenance = Source(name: string)

  type History = seq<Provenance>

  /** An incoming event. The last entry of its history names the node that
      sent it; times is read only for an alert. */
  datatype Message = Message(action: Action, history: History, times: seq<real>)

  /** What the node hands to notify. */
  datatype Emission =
    | CombinedAlert(first: History, second: History, dt: real)
    | CombinedRevoke(first: History, second: History)

  /** The conditions update logs and then drops the event for. */
  datatype UpdateError = UnrecognizedSource | ExcessSource | UnrecognizedAction

  /** The per-source slots: validity flag, selected time and history. */
  datatype JoinState = JoinState(valid: seq<bool>, t: seq<real>, h: seq<History>)
  {
    predicate WellFormed()
    {
      |valid| == 2 && |t| == 2 && |h| == 2
    }
  }

  /** Result of one update: the event was dropped with an error, or the new
      slots and what, if anything, was sent downstream. */
  datatype Outcome = Dropped(error: UpdateError) | Applied(state: JoinState, emission: Option<Emission>)

  /** The state of a freshly constructed node: both slots invalid, times 0,
      histories empty. */
  const Initial := JoinState([false, false], [0.0, 0.0], [[], []])

  /** What update needs to run without a Python exception: an alert routed to
      a slot carries at least nth times. */
  predicate AlertReady(nth: int, index: int, msg: Message)
  {
    msg.action.Alert? && 0 <= index < 2 ==> 1 <= nth <= |msg.times|
  }

  /** The emission decision taken after the slot of the event has been
      updated; newRevoke says that this event revoked a slot that was valid. */
  function Decide(s: JoinState, newRevoke: bool): (o: Outcome)
    requires s.WellFormed()
    ensures o.Applied? && o.state == s
    ensures o.emission.Some? ==> o.emission.value.first == s.h[0] && o.emission.value.second == s.h[1]
    ensures o.emission.Some? <==> s.valid == [true, true] || newRevoke
  {
    if s.valid == [true, true] then
      Applied(s, Some(CombinedAlert(s.h[0], s.h[1], s.t[0] - s.t[1])))
    else if newRevoke then
      Applied(s, Some(CombinedRevoke(s.h[0], s.h[1])))
    else
      Applied(s, None)
  }

  /** One call of update, on the slots s, for an event whose source the DAG
      resolved to index. */
  function Step(s: JoinState, nth: int, index: int, msg: Message): (o: Outcome)
    requires s.WellFormed()
    requires AlertReady(nth, index, msg)
    ensures o.Dropped? <==> index < 0 || index >= 2 || !(msg.action.Alert? || msg.action.Revoke?)
    ensures o.Applied? ==> o.state.WellFormed()
    ensures o.Applied? ==>
              o.state.valid[1 - index] == s.valid[1 - index] &&
              o.state.t[1 - index] == s.t[1 - index] &&
              o.state.h[1 - index] == s.h[1 - index]
  {
    if index < 0 then Dropped(UnrecognizedSource)
    else if index >= 2 then Dropped(ExcessSource)
    else match msg.action
      case Alert =>
        Decide(JoinState(s.valid[index := true], s.t[index := NthSmallest(msg.times, nth)],
                         s.h[index := msg.history]), false)
      case Revoke =>
        Decide(s.(valid := s.valid[index := false]), s.valid[index])
      case _ => Dropped(UnrecognizedAction)
  }

  class NthTimeDiff {
    /** Rank of the time selected from each alert (1 = earliest). */
    var nth: int
    var valid: seq<bool>
    var t: seq<real>
    var h: seq<History>
    /** The DAG's watch_index: the slot of a source, negative when unknown. */
    const watchIndex: Provenance -> int
    /** Every event handed to notify, oldest first. */
    ghost var notified: seq<Emission>

    ghost predicate Valid()
      reads this
    {
      nth >= 1 && State().WellFormed()
    }

    function State(): JoinState
      reads this
    {
      JoinState(valid, t, h)
    }

    /** A configured rank below 1 is replaced by 1; every other is kept. */
    constructor (nth: int, watchIndex: Provenance -> int)
      ensures Valid()
      ensures this.nth == if nth < 1 then 1 else nth
      ensures State() == Initial
      ensures this.watchIndex == watchIndex && notified == []
    {
      this.nth := nth;
      valid := [false, false];
      t := [0.0, 0.0];
      h := [[], []];
      this.watchIndex := watchIndex;
      notified := [];
      new;
      if this.nth < 1 {
        this.nth := 1;
      }
    }

    /** Handle one event: route it to its slot, update the slot, and notify
        downstream as Step decides; a dropped event changes nothing. */
    method Update(msg: Message)
      requires Valid()
      requires |msg.history| > 0
      requires AlertReady(nth, watchIndex(msg.history[|msg.history| - 1]), msg)
      modifies this
      ensures Valid() && nth == old(nth)
      ensures match Step(old(State()), nth, watchIndex(msg.history[|msg.history| - 1]), msg)
        case Dropped(_) => State() == old(State()) && notified == old(notified)
        case Applied(s, e) =>
          State() == s && notified == old(notified) + (if e.Some? then [e.value] else [])
    {
      var source := msg.history[|msg.history| - 1];
      var index := watchIndex(source);
      if index < 0 {
        return;
      }
      if index >= 2 {
        return;
      }
      var newRevoke := false;
      if msg.action.Alert? {
        valid := valid[index := true];
        var selected := GetNth(msg.times, nth);
        t := t[index := selected];
        h := h[index := msg.history];
      } else if msg.action.Revoke? {
        newRevoke := valid[index];
        valid := valid[index := false];
      } else {
        return;
      }
      if valid == [true, true] {
        notified := notified + [CombinedAlert(h[0], h[1], t[0] - t[1])];
      } else if newRevoke {
        notified := notified + [CombinedRevoke(h[0], h[1])];
      }
    }
  }

  /** The invariant of get_nth's loop: current is the maximum of the working
      list, the working list and the rest together are, as a multiset, the
      values scanned so far, and nothing in the rest lies below current. */
  predicate WorkingSet(scanned: seq<real>, lowest: seq<real>, rest: seq<real>, current: real)
  {
    current in lowest &&
    (forall j :: 0 <= j < |lowest| ==> lowest[j] <= current) &&
    multiset(scanned) == multiset(lowest + rest) &&
    (forall j :: 0 <= j < |rest| ==> current <= rest[j])
  }

  /** get_nth: the nth smallest of values, found by scanning with a working
      list of nth candidates and their running maximum. */
  method GetNth(values: seq<real>, nth: int) returns (current: real)
    requires 1 <= nth <= |values|
    ensures IsNthSmallest(values, nth, current)
    ensures current == SortedCopy(values)[nth - 1]
  {
    var lowest := values[..nth];
    current := Max(lowest);
    // the scanned values that are not in lowest
    ghost var rest: seq<real> := [];
    StartWorkingSet(lowest);
    for i := nth to |values|
      invariant |lowest| == nth
      invariant WorkingSet(values[..i], lowest, rest, current)
    {
      var v := values[i];
      if v < current {
        EvictMaximum(values, i, lowest, rest, current);
        rest := rest + [current];
        lowest := RemoveFirst(lowest, current) + [v];
        current := Max(lowest);
      } else {
        KeepMaximum(values, i, lowest, rest, current);
        rest := rest + [v];
      }
    }
    assert IsNthSmallest(values, nth, current) by {
      assert values[..|values|] == values;
      WorkingSetRank(values, lowest, rest, current);
    }
    NthSmallestIsSortedAt(values, nth, current);
  }

  /** The start of get_nth's scan: the first nth values, nothing else. */
  lemma StartWorkingSet(lowest: seq<real>)
    requires |lowest| > 0
    ensures WorkingSet(lowest, lowest, [], Max(lowest))
  {
    assert lowest + [] == lowest;
  }

  /** One eviction of get_nth: when v is below the maximum current, replacing
      one occurrence of current by v and moving current to the rest keeps the
      invariant for the scan extended by v. */
  lemma EvictMaximum(values: seq<real>, i: int, lowest: seq<real>, rest: seq<real>, current: real)
    requires 0 <= i < |values|
    requires WorkingSet(values[..i], lowest, rest, current) && values[i] < current
    ensures |RemoveFirst(lowest, current) + [values[i]]| == |lowest|
    ensures var lowest' := RemoveFirst(lowest, current) + [values[i]];
      WorkingSet(values[..i + 1], lowest', rest + [current], Max(lowest'))
  {
    var v := values[i];
    assert values[..i + 1] == values[..i] + [v];
    var kept := RemoveFirst(lowest, current);
    var m' := Max(kept + [v]);
    assert m' <= current by {
      assert m' in multiset(kept + [v]);
      if m' != v {
        assert m' in multiset(kept);
        assert m' in lowest;
      }
    }
    assert multiset(kept + [v] + (rest + [current]))
        == multiset(kept) + multiset{v} + multiset(rest) + multiset{current};
  }

  /** A value at or above the maximum of the working list goes to the rest. */
  lemma KeepMaximum(values: seq<real>, i: int, lowest: seq<real>, rest: seq<real>, current: real)
    requires 0 <= i < |values|
    requires WorkingSet(values[..i], lowest, rest, current) && current <= values[i]
    ensures WorkingSet(values[..i + 1], lowest, rest + [values[i]], current)
  {
    var v := values[i];
    assert values[..i + 1] == values[..i] + [v];
    assert lowest + (rest + [v]) == lowest + rest + [v];
  }

  /** The invariant of get_nth at the end of the scan: the maximum of the
      working list is the |lowest|-th smallest of all values. */
  lemma WorkingSetRank(values: seq<real>, lowest: seq<real>, rest: seq<real>, current: real)
    requires WorkingSet(values, lowest, rest, current)
    ensures IsNthSmallest(values, |lowest|, current)
  {
    CountPermutation(values, lowest + rest, current);
    CountAppend(lowest, rest, current);
    CountNoneLess(rest, current);
    CountWitness(lowest, current, current);
    CountAllAtMost(lowest, current);
    assert current in multiset(values);
  }

  /** An event from an unknown source, or from a source past the second slot,
      is dropped. */
  lemma BadIndexDropped(s: JoinState, nth: int, index: int, msg: Message)
    requires s.WellFormed() && AlertReady(nth, index, msg)
    requires index < 0 || index >= 2
    ensures Step(s, nth, index, msg) == Dropped(if index < 0 then UnrecognizedSource else ExcessSource)
  {
  }

  /** An action other than alert or revoke is dropped. */
  lemma OtherActionDropped(s: JoinState, nth: int, index: int, msg: Message)
    requires s.WellFormed() && AlertReady(nth, index, msg)
    requires 0 <= index < 2
    requires !msg.action.Alert? && !msg.action.Revoke?
    ensures Step(s, nth, index, msg) == Dropped(UnrecognizedAction)
  {
  }

  /** An alert validates its slot and stores the nth time and the history;
      the other slot is untouched. */
  lemma AlertFillsSlot(s: JoinState, nth: int, index: int, msg: Message)
    requires s.WellFormed() && AlertReady(nth, index, msg)
    requires 0 <= index < 2 && msg.action.Alert?
    ensures Step(s, nth, index, msg).Applied?
    ensures var s' := Step(s, nth, index, msg).state;
      s'.WellFormed() &&
      s'.valid[index] && s'.t[index] == SortedCopy(msg.times)[nth - 1] && s'.h[index] == msg.history &&
      s'.valid[1 - index] == s.valid[1 - index] && s'.t[1 - index] == s.t[1 - index] &&
      s'.h[1 - index] == s.h[1 - index]
  {
  }

  /** A revoke clears only the validity flag of its slot. */
  lemma RevokeClearsFlag(s: JoinState, nth: int, index: int, msg: Message)
    requires s.WellFormed() && AlertReady(nth, index, msg)
    requires 0 <= index < 2 && msg.action.Revoke?
    ensures Step(s, nth, index, msg).Applied?
    ensures var s' := Step(s, nth, index, msg).state;
      s'.WellFormed() && !s'.valid[index] && s'.valid[1 - index] == s.valid[1 - index] &&
      s'.t == s.t && s'.h == s.h
  {
  }

  /** After an accepted event exactly one of three things happens: both slots
      are valid and their difference is sent; a revoke turned a valid slot
      invalid and a revocation is sent; or nothing is sent. */
  lemma EmissionCases(s: JoinState, nth: int, index: int, msg: Message)
    requires s.WellFormed() && AlertReady(nth, index, msg)
    requires Step(s, nth, index, msg).Applied?
    ensures var o := Step(s, nth, index, msg);
      var s' := o.state;
      s'.WellFormed() &&
      (s'.valid == [true, true] <==>
        o.emission == Some(CombinedAlert(s'.h[0], s'.h[1], s'.t[0] - s'.t[1]))) &&
      (msg.action.Revoke? && s.valid[index] <==>
        o.emission == Some(CombinedRevoke(s'.h[0], s'.h[1]))) &&
      (o.emission == None <==>
        s'.valid != [true, true] && !(msg.action.Revoke? && s.valid[index]))
  {
    if msg.action.Revoke? {
      var s' := Step(s, nth, index, msg).state;
      assert !s'.valid[index];
      assert s'.valid != [true, true];
    }
  }

  /** Revoking a slot that is already invalid sends nothing. */
  lemma StaleRevokeSilent(s: JoinState, nth: int, index: int, msg: Message)
    requires s.WellFormed() && AlertReady(nth, index, msg)
    requires 0 <= index < 2 && msg.action.Revoke? && !s.valid[index]
    ensures Step(s, nth, index, msg) == Applied(s, None)
  {
    assert s.valid[index := false] == s.valid;
  }

  /** Two revokes in a row from one source, whatever history and times the
      second carries: the second sends nothing, so at most one revocation goes
      downstream. */
  lemma RepeatedRevokeSilent(s: JoinState, nth: int, index: int, msg: Message, msg2: Message)
    requires s.WellFormed() && AlertReady(nth, index, msg)
    requires 0 <= index < 2 && msg.action.Revoke?
    requires msg2.action.Revoke? && AlertReady(nth, index, msg2)
    ensures var s' := Step(s, nth, index, msg).state;
      s'.WellFormed() && Step(s', nth, index, msg2) == Applied(s', None)
  {
    RevokeClearsFlag(s, nth, index, msg);
    StaleRevokeSilent(Step(s, nth, index, msg).state, nth, index, msg2);
  }

  /** The selections of the example run below: the 2nd smallest of 9, 5, 7
      is 7, and of 1, 2, 3 it is 2. */
  lemma ExampleSelections()
    ensures NthSmallest([9.0, 5.0, 7.0], 2) == 7.0
    ensures NthSmallest([1.0, 2.0, 3.0], 2) == 2.0
  {
    assert IsNthSmallest([9.0, 5.0, 7.0], 2, 7.0);
    NthSmallestUnique([9.0, 5.0, 7.0], 2, 7.0, NthSmallest([9.0, 5.0, 7.0], 2));
    assert IsNthSmallest([1.0, 2.0, 3.0], 2, 2.0);
    NthSmallestUnique([1.0, 2.0, 3.0], 2, 2.0, NthSmallest([1.0, 2.0, 3.0], 2));
  }

  /** An example run with nth = 2, first half: source A (slot 0) alerts and
      nothing is sent; source B (slot 1) alerts and the difference of the two
      selected times is sent. With times 9, 5, 7 and 1, 2, 3 that is 7 - 2
      (ExampleSelections). */
  lemma ExampleAlerts(timesA: seq<real>, timesB: seq<real>)
    requires |timesA| >= 2 && |timesB| >= 2
    ensures var hA, hB := [Source("A")], [Source("B")];
      var a, b := NthSmallest(timesA, 2), NthSmallest(timesB, 2);
      var s1 := JoinState([true, false], [a, 0.0], [hA, []]);
      Step(Initial, 2, 0, Message(Alert, hA, timesA)) == Applied(s1, None) &&
      Step(s1, 2, 1, Message(Alert, hB, timesB))
        == Applied(JoinState([true, true], [a, b], [hA, hB]), Some(CombinedAlert(hA, hB, a - b)))
  {
    var hA, hB := [Source("A")], [Source("B")];
    var a, b := NthSmallest(timesA, 2), NthSmallest(timesB, 2);
    assert Initial.valid[0 := true] == [true, false];
    assert Initial.t[0 := a] == [a, 0.0];
    assert Initial.h[0 := hA] == [hA, []];
    assert [true, false][1 := true] == [true, true];
    assert [a, 0.0][1 := b] == [a, b];
    assert [hA, []][1 := hB] == [hA, hB];
  }

  /** The example run, second half: with both slots valid, a revoke from A
      sends one revocation carrying both last histories, and a second revoke
      from A sends nothing. */
  lemma ExampleRevokes()
    ensures var hA, hB := [Source("A")], [Source("B")];
      var s3 := JoinState([false, true], [7.0, 2.0], [hA, hB]);
      Step(JoinState([true, true], [7.0, 2.0], [hA, hB]), 2, 0, Message(Revoke, hA, []))
        == Applied(s3, Some(CombinedRevoke(hA, hB))) &&
      Step(s3, 2, 0, Message(Revoke, hA, [])) == Applied(s3, None)
  {
    assert [true, true][0 := false] == [false, true];
    assert [false, true][0 := false] == [false, true];
  }
}
