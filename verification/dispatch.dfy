/** The message handler: one step from a session, a classified command and
    the device's answers to the session, the messages sent and the requests
    issued; and the handler as written, eleven independent `if` blocks. */
module Dispatch {
  import opened Wrappers
  import opened Text
  import opened Device
  import opened Commands
  import opened Replies

  /** What handling one message leaves behind: the session, the messages sent
      to the chat (in order), and the device requests issued (in order). */
  datatype Outcome = Outcome(session: Session, replies: seq<Reply>, requests: seq<Request>)

  function GetRequest(s: Session, endpoint: string): Request {
    RequestFor(s, endpoint, Get, None)
  }

  function ToggleRequest(s: Session, name: string, disabled: string): Request {
    RequestFor(s, "/interface/" + name, Patch, Some(disabled))
  }

  /** The reply of a list command: the failure message when the request
      failed, the list when the body is an array, and nothing when it is a
      plain object (`forEach` / `filter` on it throws before anything is sent). */
  function ListReply(answer: Option<Json>, list: seq<Record> -> Reply, failure: Reply): seq<Reply> {
    match answer
    case None => [failure]
    case Some(Array(xs)) => [list(xs)]
    case Some(Object(_)) => []
  }

  /** The reply of `/hotspot_find`. Both lists are needed; a non-array body or
      a record without the compared field makes the filter throw (no reply). */
  function FindReplies(token: string, users: Option<Json>, active: Option<Json>): seq<Reply> {
    if users.None? || active.None? then [HotspotFailed]
    else
      match (users.value, active.value)
      case (Array(us), Array(act)) =>
        if !AllHave(us, "name") || !AllHave(act, "user") then []
        else
          var matched := MatchingUsers(us, token);
          if |matched| > 0 then [Found(matched, MatchingActive(act, token), token)]
          else [NotFound(token)]
      case _ => []
  }

  /** The reply of `/resource` once connected: any failure of the request
      gives the failure message. */
  function ResourceReply(answer: Option<Json>): Reply {
    match answer
    case None => ResourceFailed
    case Some(j) => ResourceReport(j)
  }

  /** Every request goes to the stored base address with the stored credentials. */
  predicate Addressed(s: Session, qs: seq<Request>) {
    forall i :: 0 <= i < |qs| ==>
      StartsWith(qs[i].url, s.baseUrl) && qs[i].username == s.username && qs[i].password == s.password
  }

  /** Handling one command. Only `/connect` changes the session, and it
      always marks it connected; at most one message is sent; every request
      goes to the stored base address with the stored credentials; an
      unknown message does nothing at all. */
  function Step(s: Session, cmd: Command, device: Oracle): (o: Outcome)
    ensures o.session.connected == (s.connected || cmd.Connect?)
    ensures !cmd.Connect? ==> o.session == s
    ensures |o.replies| <= 1
    ensures Addressed(s, o.requests)
    ensures cmd.Unknown? ==> o.replies == [] && o.requests == []
  {
    match cmd
    case Help => Outcome(s, [Menu], [])
    case Connect(url, username, password) =>
      Outcome(Session(true, url, username, password), [Saved], [])
    case Status => Outcome(s, [StatusNotice(s.connected)], [])
    case Resource =>
      if !s.connected then Outcome(s, [NotConnected], [])
      else
        var q := GetRequest(s, "/system/resource");
        Outcome(s, [ResourceReply(device(q))], [q])
    case InterfaceList =>
      var q := GetRequest(s, "/interface");
      Outcome(s, ListReply(device(q), xs => Interfaces(xs), InterfacesFailed), [q])
    case InterfaceDisable(name) =>
      var q := ToggleRequest(s, name, "true");
      Outcome(s, [Toggled(name, "disable", device(q).Some?)], [q])
    case InterfaceEnable(name) =>
      var q := ToggleRequest(s, name, "false");
      Outcome(s, [Toggled(name, "enable", device(q).Some?)], [q])
    case TotalHotspot =>
      // all three requests are issued before any result is looked at
      var qu := GetRequest(s, "/ip/hotspot/user");
      var qa := GetRequest(s, "/ip/hotspot/active");
      var qh := GetRequest(s, "/ip/hotspot/host");
      var reply :=
        if device(qu).Some? && device(qa).Some? && device(qh).Some?
        then HotspotTotals(device(qu).value, device(qa).value, device(qh).value)
        else HotspotFailed;
      Outcome(s, [reply], [qu, qa, qh])
    case HotspotFind(token) =>
      var qu := GetRequest(s, "/ip/hotspot/user");
      var qa := GetRequest(s, "/ip/hotspot/active");
      Outcome(s, FindReplies(token, device(qu), device(qa)), [qu, qa])
    case TotalPppoe =>
      var q := GetRequest(s, "/interface/pppoe-server/active");
      Outcome(s, [if device(q).Some? then PppoeTotal(device(q).value) else PppoeFailed], [q])
    case NetwatchDown =>
      var q := GetRequest(s, "/tool/netwatch");
      Outcome(s, ListReply(device(q), xs => NetwatchList(xs), NetwatchFailed), [q])
    case Unknown => Outcome(s, [], [])
  }

  // ---------------------------------------------------------------------------
  // The handler as written: every block whose guard holds runs, in order
  // ---------------------------------------------------------------------------

  /** Appends what one block did to what earlier blocks did. */
  function Then(before: Outcome, block: Outcome): Outcome {
    Outcome(block.session, before.replies + block.replies, before.requests + block.requests)
  }

  /** The blocks `bs` evaluated one after another on the lower-cased text `t`,
      each that fires acting on the session the previous ones left. */
  function RunBlocks(bs: seq<Branch>, t: string, acc: Outcome, device: Oracle): Outcome
    decreases |bs|
  {
    if |bs| == 0 then acc
    else
      var next := if Guard(bs[0], t) then Then(acc, Step(acc.session, Parse(bs[0], t), device)) else acc;
      RunBlocks(bs[1..], t, next, device)
  }

  /** The message handler: lower-case the body, then run the blocks in
      source order. */
  function HandleAsWritten(s: Session, body: string, device: Oracle): Outcome {
    RunBlocks(SourceOrder, Lower(body), Outcome(s, [], []), device)
  }

  lemma {:induction false} RunBlocksNoneFire(bs: seq<Branch>, t: string, acc: Outcome, device: Oracle)
    requires forall i :: 0 <= i < |bs| ==> !Guard(bs[i], t)
    ensures RunBlocks(bs, t, acc, device) == acc
    decreases |bs|
  {
    if |bs| > 0 {
      RunBlocksNoneFire(bs[1..], t, acc, device);
    }
  }

  lemma {:induction false} RunBlocksOneFires(bs: seq<Branch>, t: string, acc: Outcome, device: Oracle, b: Branch)
    requires forall i, j :: 0 <= i < j < |bs| ==> bs[i] != bs[j]
    requires forall i :: 0 <= i < |bs| && Guard(bs[i], t) ==> bs[i] == b
    requires b in bs && Guard(b, t)
    ensures RunBlocks(bs, t, acc, device) == Then(acc, Step(acc.session, Parse(b, t), device))
    decreases |bs|
  {
    if bs[0] == b {
      var next := Then(acc, Step(acc.session, Parse(b, t), device));
      RunBlocksNoneFire(bs[1..], t, next, device);
    } else {
      RunBlocksOneFires(bs[1..], t, acc, device, b);
    }
  }

  /** Each block appears once in the handler. */
  lemma SourceOrderDistinct()
    ensures forall i, j :: 0 <= i < j < |SourceOrder| ==> SourceOrder[i] != SourceOrder[j]
  {
  }

  /** Every block appears in the handler. */
  lemma SourceOrderComplete(b: Branch)
    ensures b in SourceOrder
  {
    match b
    case MenuBranch => assert SourceOrder[0] == b;
    case ConnectBranch => assert SourceOrder[1] == b;
    case StatusBranch => assert SourceOrder[2] == b;
    case ResourceBranch => assert SourceOrder[3] == b;
    case InterfaceListBranch => assert SourceOrder[4] == b;
    case DisableBranch => assert SourceOrder[5] == b;
    case EnableBranch => assert SourceOrder[6] == b;
    case TotalHotspotBranch => assert SourceOrder[7] == b;
    case HotspotFindBranch => assert SourceOrder[8] == b;
    case TotalPppoeBranch => assert SourceOrder[9] == b;
    case NetwatchBranch => assert SourceOrder[10] == b;
  }

  lemma ThenFromStart(s: Session, o: Outcome)
    ensures Then(Outcome(s, [], []), o) == o
  {
    assert [] + o.replies == o.replies;
    assert [] + o.requests == o.requests;
  }

  /** The handler as written, with its independent `if` blocks, does exactly
      what one step on the classified command does: at most one block fires. */
  lemma HandleAsWrittenIsStep(s: Session, body: string, device: Oracle)
    ensures HandleAsWritten(s, body, device) == Step(s, Classify(body), device)
  {
    var t := Lower(body);
    var start := Outcome(s, [], []);
    var c := Classify(body);
    if c.Unknown? {
      RunBlocksNoneFire(SourceOrder, t, start, device);
    } else {
      var b := BranchOf(c);
      forall i | 0 <= i < |SourceOrder| && Guard(SourceOrder[i], t)
        ensures SourceOrder[i] == b
      {
        AtMostOneBranch(SourceOrder[i], b, t);
      }
      SourceOrderDistinct();
      SourceOrderComplete(b);
      RunBlocksOneFires(SourceOrder, t, start, device, b);
      ThenFromStart(s, Step(s, c, device));
    }
  }
}
