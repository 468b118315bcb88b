/**
 The machine of src/modules/mod_app_p2p_fsm.c that classifies a client's NAT from
 the ports that two helper servers, the master and the vice, report.
 */
module NatType {
  datatype Stat = Idle | WaitMaster | WaitVice

  datatype Nat = Unknown | Symmetric | PortRestrictedCone | RestrictedCone | FullCone

  /** A report, as on_channel_sub receives it. */
  datatype Report = Report(master: bool, portRestricted: bool, udpPort: int)

  // ------------------------------------------------- what a history of reports means

  /** The reports of the round that is still open. */
  function Open(h: seq<Report>): (r: seq<Report>)
    ensures |r| <= |h|
  {
    if h == [] then []
    else
      var before, last := Open(h[..|h| - 1]), h[|h| - 1];
      if before == [] || before[|before| - 1].master == last.master then before + [last] else []
  }

  /** `r` comes from the other side than the previous report of the open round. */
  predicate Answers(h: seq<Report>, r: Report) {
    Open(h) != [] && Open(h)[|Open(h)| - 1].master != r.master
  }

  /** The flag of the last master report that opened a round. */
  function Flag(h: seq<Report>): bool {
    if h == [] then false
    else
      var before, last := h[..|h| - 1], h[|h| - 1];
      if Open(before) == [] && last.master then last.portRestricted else Flag(before)
  }

  /** The verdict of the last completed round. */
  function Verdict(h: seq<Report>): Nat {
    if h == [] then Unknown
    else
      var before, last := h[..|h| - 1], h[|h| - 1];
      if !Answers(before, last) then Verdict(before)
      else Classified(Open(before)[|Open(before)| - 1].udpPort, last.udpPort, Flag(before))
  }

  /** The type that two ports seen from outside and the flag give. */
  function Classified(port: int, other: int, restricted: bool): Nat {
    if port != other then Symmetric else if restricted then PortRestrictedCone else RestrictedCone
  }

  lemma {:induction false} HistoryNext(h: seq<Report>, r: Report)
    ensures (h + [r])[..|h|] == h && (h + [r])[|h|] == r
  {
  }

  // ------------------------------------------------------------------- the machine

  class Session {
    var fsmStat: Stat
    var portRestricted: bool
    var preUdpPort: int
    var natType: Nat
    /** The reports so far. */
    ghost var reports: seq<Report>

    /** __tcp_session_init */
    constructor ()
      ensures Valid() && reports == [] && natType == Unknown
    {
      fsmStat, portRestricted, preUdpPort, natType := Idle, false, 0, Unknown;
      reports := [];
    }

    /** The fields are what the history says. */
    ghost predicate Valid()
      reads this
    {
      Agrees(reports, fsmStat, preUdpPort, portRestricted, natType)
    }

    /** The switch of on_channel_sub; `asserted` says whether its assertion holds where it is reached. */
    method OnReport(data: Report) returns (asserted: bool)
      requires Valid()
      modifies this
      ensures Valid() && reports == old(reports) + [data]
      ensures asserted <==> (old(Answers(reports, data)) ==> old(reports)[|old(reports)| - 1].udpPort != 0)
      // only an answer changes the type: symmetric for two ports, else by the flag
      ensures !old(Answers(reports, data)) ==> natType == old(natType)
      ensures old(Answers(reports, data)) ==>
        natType ==
          if old(reports)[|old(reports)| - 1].udpPort != data.udpPort then Symmetric
          else if old(portRestricted) then PortRestrictedCone
          else RestrictedCone
    {
      hide Open, Flag, Verdict;
      AgreesNext(reports, data, fsmStat, preUdpPort, portRestricted, natType);
      asserted := true;
      match fsmStat {
        case Idle =>
          if data.master {
            fsmStat := WaitVice;
            portRestricted := data.portRestricted;
            preUdpPort := data.udpPort;
          } else {
            fsmStat := WaitMaster;
            preUdpPort := data.udpPort;
          }
        case WaitMaster =>
          if !data.master {
            preUdpPort := data.udpPort;
          } else {
            asserted := preUdpPort != 0;
            natType := Classified(preUdpPort, data.udpPort, portRestricted);
            fsmStat := Idle;
            preUdpPort := 0;
          }
        case WaitVice =>
          if data.master {
            preUdpPort := data.udpPort;
          } else {
            asserted := preUdpPort != 0;
            natType := Classified(preUdpPort, data.udpPort, portRestricted);
            fsmStat := Idle;
            preUdpPort := 0;
          }
      }
      reports := reports + [data];
    }
  }

  ghost predicate Agrees(h: seq<Report>, stat: Stat, prePort: int, restricted: bool, kind: Nat) {
    var open := Open(h);
    (stat == Idle <==> open == []) && (stat == Idle ==> prePort == 0) &&
    (open != [] ==>
      var last := open[|open| - 1];
      prePort == last.udpPort && (stat == WaitVice <==> last.master)) &&
    restricted == Flag(h) && kind == Verdict(h)
  }

  /** The last report of an open round is a report. */
  lemma {:induction false} OpenLast(h: seq<Report>)
    ensures Open(h) != [] ==> h != [] && Open(h)[|Open(h)| - 1] == h[|h| - 1]
  {
  }

  lemma {:induction false} AgreesNext(h: seq<Report>, r: Report, stat: Stat, prePort: int, restricted: bool, kind: Nat)
    requires Agrees(h, stat, prePort, restricted, kind)
    ensures var open := Open(h + [r]);
      if stat == Idle then
        open == [r] && Flag(h + [r]) == (if r.master then r.portRestricted else restricted) && Verdict(h + [r]) == kind
      else if r.master == (stat == WaitVice) then
        open != [] && open[|open| - 1] == r && Flag(h + [r]) == restricted && Verdict(h + [r]) == kind
      else
        open == [] && Flag(h + [r]) == restricted && Verdict(h + [r]) == Classified(prePort, r.udpPort, restricted)
    ensures Answers(h, r) <==> stat != Idle && r.master != (stat == WaitVice)
    ensures stat != Idle ==> h != [] && prePort == h[|h| - 1].udpPort
  {
    HistoryNext(h, r);
    OpenLast(h);
  }

  // ------------------------------------------------------------- over every history

  /** Report i completed a round. */
  ghost predicate Completes(h: seq<Report>, i: int) {
    0 <= i < |h| && Answers(h[..i], h[i])
  }

  lemma {:induction false} CompletesEarlier(h: seq<Report>, n: int, i: int)
    requires 0 <= i < n <= |h|
    ensures Completes(h[..n], i) <==> Completes(h, i)
  {
    hide Answers;
    assert h[..n][..i] == h[..i];
  }

  /** No round is open exactly when there is no report yet or the last one completed a round. */
  lemma {:induction false} OpenAfter(h: seq<Report>, i: int)
    requires 0 <= i <= |h|
    ensures Open(h[..i]) == [] <==> i == 0 || Completes(h, i - 1)
  {
    if i > 0 {
      assert h[..i] == h[..i - 1] + [h[i - 1]];
      HistoryNext(h[..i - 1], h[i - 1]);
    }
  }

  /** A report completes a round exactly when its predecessor came from the other side and completed none. */
  lemma {:induction false} CompletesAfter(h: seq<Report>, i: int)
    requires 0 <= i < |h|
    ensures Completes(h, i) <==> i > 0 && h[i - 1].master != h[i].master && !Completes(h, i - 1)
  {
    OpenAfter(h, i);
    OpenLast(h[..i]);
  }

  /**
   Which reports complete a round, from the sides alone: with the sides alternating
   from report k to report i and k not part of an earlier alternation, i does exactly
   when it is an odd number of reports after k.
   */
  lemma {:induction false} CompletesByAlternation(h: seq<Report>, k: int, i: int)
    requires 0 <= k <= i < |h|
    requires k == 0 || h[k - 1].master == h[k].master
    requires forall j :: k <= j < i ==> h[j].master != h[j + 1].master
    ensures Completes(h, i) <==> (i - k) % 2 == 1
    decreases i
  {
    hide Completes;
    CompletesAfter(h, i);
    if k < i { CompletesByAlternation(h, k, i - 1); }
  }

  /** Report i reaches the assertion, and the port stored by report i - 1 is 0. */
  ghost predicate Aborts(h: seq<Report>, i: int) {
    0 < i && Completes(h, i) && h[i - 1].udpPort == 0
  }

  lemma {:induction false} AbortsNext(h: seq<Report>, r: Report, i: int)
    requires 0 <= i <= |h|
    ensures i < |h| ==> (Aborts(h + [r], i) <==> Aborts(h, i))
    ensures i == |h| ==> (Aborts(h + [r], i) <==> h != [] && Answers(h, r) && h[|h| - 1].udpPort == 0)
  {
    hide Answers;
    HistoryNext(h, r);
    if i < |h| {
      CompletesEarlier(h + [r], |h|, i);
    } else {
      NeverFirst(r);
    }
  }

  lemma {:induction false} NeverFirst(r: Report)
    ensures !Answers([], r)
  {
  }

  /** No report from number `start` on fails the assertion. */
  ghost predicate Survives(h: seq<Report>, start: nat) {
    forall i :: start <= i < |h| ==> !Aborts(h, i)
  }

  lemma {:induction false} FeedNothing(h: seq<Report>)
    ensures Survives(h, |h|)
  {
  }

  lemma {:induction false} FeedNext(h: seq<Report>, r: Report, start: nat)
    requires start <= |h|
    ensures Answers(h, r) ==> h != []
    ensures Survives(h + [r], start) <==> Survives(h, start) && (Answers(h, r) ==> h[|h| - 1].udpPort != 0)
  {
    hide Answers, Aborts;
    NeverFirst(r);
    AbortsNext(h, r, |h|);
    forall i | 0 <= i < |h|
      ensures Aborts(h + [r], i) <==> Aborts(h, i)
    {
      AbortsNext(h, r, i);
    }
  }

  /** A run of reports: the assertions hold exactly if no completing report answers one with port 0. */
  method Feed(s: Session, more: seq<Report>) returns (asserted: bool)
    requires s.Valid()
    modifies s
    ensures s.Valid() && s.reports == old(s.reports) + more
    ensures asserted <==> Survives(s.reports, |old(s.reports)|)
  {
    hide Open, Flag, Verdict, Answers, Survives;
    FeedNothing(s.reports);
    asserted := true;
    for n := 0 to |more|
      invariant s.Valid() && s.reports == old(s.reports) + more[..n]
      invariant asserted <==> Survives(s.reports, |old(s.reports)|)
    {
      FeedNext(s.reports, more[n], |old(s.reports)|);
      assert more[..n + 1] == more[..n] + [more[n]];
      var ok := s.OnReport(more[n]);
      asserted := asserted && ok;
    }
  }

  /** After any history: a round opened with port 0 and answered at once ends in a failed assertion. */
  lemma {:induction false} ZeroPort(h: seq<Report>, r: Report, q: Report)
    requires Open(h) == [] && r.udpPort == 0 && q.master != r.master
    ensures Aborts(h + [r] + [q], |h| + 1)
  {
    HistoryNext(h, r);
    AbortsNext(h + [r], q, |h| + 1);
  }

  /** But not if a second report of that side has replaced the port. */
  lemma {:induction false} ZeroPortReplaced(h: seq<Report>, r: Report, p: Report, q: Report)
    requires Open(h) == [] && p.master == r.master && p.udpPort != 0 && q.master != r.master
    ensures Completes(h + [r] + [p] + [q], |h| + 2) && !Aborts(h + [r] + [p] + [q], |h| + 2)
  {
    HistoryNext(h, r);
    HistoryNext(h + [r], p);
    HistoryNext(h + [r] + [p], q);
    AbortsNext(h + [r] + [p], q, |h| + 2);
  }

  /** The verdict of the last completed round i comes from the ports of reports i - 1 and i and the flag before i. */
  lemma {:induction false} VerdictAt(h: seq<Report>, i: int)
    requires Completes(h, i) && forall j :: i < j < |h| ==> !Completes(h, j)
    ensures i > 0 && Verdict(h) == Classified(h[i - 1].udpPort, h[i].udpPort, Flag(h[..i]))
  {
    var n := |h| - 1;
    CompletesAfter(h, i);
    if i == n {
      OpenLast(h[..n]);
    } else {
      assert !Completes(h, n);
      forall j | 0 <= j < n
        ensures Completes(h[..n], j) <==> Completes(h, j)
      {
        CompletesEarlier(h, n, j);
      }
      VerdictAt(h[..n], i);
      assert h[..n][..i] == h[..i];
    }
  }

  /** The same without the classification: symmetric exactly for two different ports. */
  lemma {:induction false} VerdictOf(h: seq<Report>, i: int)
    requires Completes(h, i) && forall j :: i < j < |h| ==> !Completes(h, j)
    ensures i > 0 && (Verdict(h) == Symmetric <==> h[i - 1].udpPort != h[i].udpPort)
    ensures h[i - 1].udpPort == h[i].udpPort ==>
      Verdict(h) == if Flag(h[..i]) then PortRestrictedCone else RestrictedCone
  {
    hide Completes, Verdict, Flag;
    VerdictAt(h, i);
  }

  /** Nothing is ever classified as a full cone. */
  lemma {:induction false} NeverFullCone(h: seq<Report>)
    ensures Verdict(h) != FullCone
  {
    if h != [] { NeverFullCone(h[..|h| - 1]); }
  }

  /** Report i is of the master and opens a round. */
  ghost predicate MasterOpens(h: seq<Report>, i: int) {
    0 <= i < |h| && h[i].master && Open(h[..i]) == []
  }

  lemma {:induction false} MasterOpensEarlier(h: seq<Report>, n: int, i: int)
    requires 0 <= i < n <= |h|
    ensures MasterOpens(h[..n], i) <==> MasterOpens(h, i)
  {
    hide Open;
    assert h[..n][..i] == h[..i];
  }

  /** The flag is that of the last master report that opened a round, which may be a round before the last. */
  lemma {:induction false} FlagAt(h: seq<Report>, i: int)
    requires forall j :: i < j < |h| ==> !MasterOpens(h, j)
    requires MasterOpens(h, i) || i == -1
    ensures Flag(h) <==> i >= 0 && h[i].portRestricted
  {
    var n := |h| - 1;
    if i < n {
      assert !MasterOpens(h, n);
      forall j | 0 <= j < n
        ensures MasterOpens(h[..n], j) <==> MasterOpens(h, j)
      {
        MasterOpensEarlier(h, n, j);
      }
      FlagAt(h[..n], i);
    }
  }

  /** A master's flag does not count in a round that the vice opened: two equal ports then give the flag from before. */
  lemma {:induction false} FlagOfAnswerIgnored(h: seq<Report>, flag: bool, port: int)
    requires Open(h) == []
    ensures Verdict(h + [Report(false, false, port)] + [Report(true, flag, port)]) ==
      if Flag(h) then PortRestrictedCone else RestrictedCone
  {
    var vice := Report(false, false, port);
    HistoryNext(h, vice);
    HistoryNext(h + [vice], Report(true, flag, port));
  }

  /** A known type never becomes unknown again, whatever is reported later. */
  lemma {:induction false} KnownStaysKnown(h: seq<Report>, more: seq<Report>)
    requires Verdict(h) != Unknown
    ensures Verdict(h + more) != Unknown
    decreases |more|
  {
    if more == [] {
      assert h + more == h;
    } else {
      var k := |more| - 1;
      KnownStaysKnown(h, more[..k]);
      assert h + more == (h + more[..k]) + [more[k]];
      HistoryNext(h + more[..k], more[k]);
    }
  }

  /** The reports of an open round all come from one side. */
  lemma {:induction false} OneSide(h: seq<Report>)
    ensures forall i, j :: 0 <= i < j < |Open(h)| ==> Open(h)[i].master == Open(h)[j].master
  {
    if h != [] { OneSide(h[..|h| - 1]); }
  }

  lemma {:induction false} KnownNext(h: seq<Report>)
    requires h != []
    ensures var n := |h| - 1;
      Verdict(h) != Unknown <==> Answers(h[..n], h[n]) || Verdict(h[..n]) != Unknown
  {
  }

  /** The type is known exactly when some round has completed. */
  lemma {:induction false} KnownAfterRound(h: seq<Report>)
    ensures Verdict(h) != Unknown <==> exists i :: Completes(h, i)
  {
    if h != [] {
      hide Answers, Verdict;
      var n := |h| - 1;
      KnownNext(h);
      KnownAfterRound(h[..n]);
      assert Completes(h, n) <==> Answers(h[..n], h[n]);
      forall i | 0 <= i < n
        ensures Completes(h[..n], i) <==> Completes(h, i)
      {
        CompletesEarlier(h, n, i);
      }
    }
  }
}
