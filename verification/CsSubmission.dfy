/** One command submission: the throttle grants an allowance, the buffers are placed within it, and what was moved is
reported if that succeeded (amdgpu_cs_parser_bos in amdgpu_cs.c).
 */
module CsSubmission {
  import P = CsPlacement
  import T = MoveThrottle

  /** What the throttle sees of one submission. */
  function Events(check: T.Event, bytes: nat, ok: bool): seq<T.Event> {
    [check, T.End(bytes, ok)]
  }

  lemma TwoEvents(l: nat, s: T.Stats, check: T.Event, bytes: nat, ok: bool)
    ensures T.Run(l, s, Events(check, bytes, ok)) == T.Apply(l, T.Apply(l, s, check), T.End(bytes, ok))
  {
    var e := Events(check, bytes, ok);
    assert [check][..0] == [];
    assert T.Run(l, s, [check]) == T.Apply(l, s, check);
    assert e[..1] == [check];
  }

  /** Before validation the search starts at the last entry. */
  function Start(list: seq<P.Bo>, mem: map<P.Bo, P.Domain>): P.View {
    P.View(list, if list == [] then P.Head else P.At(list[|list| - 1]), mem, [])
  }

  /** The allowance, the placement of the list, and the report. A submission in debt, with VRAM tight, validates every
      buffer against its allowed domains; and the throttle's balance is that of the ledger. */
  method Submit(throttle: T.Throttle, timeUs: int, realVram: nat, pinned: nat, used: nat, apu: bool,
                info: map<P.Bo, P.Info>, foreign: set<P.Bo>, list: seq<P.Bo>, mem: map<P.Bo, P.Domain>)
      returns (r: P.Ret, parser: P.Parser)
    requires pinned <= realVram && P.Distinct(list) && (forall b :: b in list ==> b in info) && info.Keys == mem.Keys
    requires forall b :: b in info ==> P.Good(info[b])
    modifies throttle
    ensures fresh(parser) && parser.Valid() && P.Kept(list, mem, parser.list, parser.mem)
    ensures r == P.Ok ==> forall b :: b in list ==> P.WellPlaced(info, parser.mem, b)
    ensures r != P.Ok ==> exists b :: b in parser.list && P.Refused(info, foreign, b, Start(list, mem), parser.Now(), r)
    ensures var l := throttle.log2MaxMBps; var check := T.Check(timeUs, realVram - pinned, used, apu);
      && P.Submission(info, list, parser.threshold, [], parser.calls)
      && (l > 0 ==> throttle.State() == T.Run(l, old(throttle.State()), Events(check, parser.bytesMoved, r == P.Ok)))
      && (l == 0 ==> throttle.State() == old(throttle.State()) && parser.threshold == 0)
    ensures !T.Roomy(realVram - pinned, used) && old(throttle.accumUs) + (timeUs - old(throttle.lastUpdateUs)) <= 0 ==>
      P.Submission(info, list, 0, [], parser.calls)
  {
    var l := throttle.log2MaxMBps;
    ghost var s, check := throttle.State(), T.Check(timeUs, realVram - pinned, used, apu);
    if !T.Roomy(realVram - pinned, used) && s.accumUs + (timeUs - s.lastUs) <= 0 {
      T.DebtMeansZero(l, s, [], timeUs, realVram - pinned, used, apu);
    }
    var threshold := throttle.Threshold(timeUs, realVram, pinned, used, apu);
    parser := new P.Parser(info, foreign, list, mem, threshold);
    r := parser.ListValidate();
    if r == P.Ok {
      throttle.ReportMoved(parser.bytesMoved);
    }
    TwoEvents(l, s, check, parser.bytesMoved, r == P.Ok);
  }
}
