/** What each command does, stated over the device's answers: which requests
    it issues, in which order, and which message it sends. */
module Behaviour {
  import opened Wrappers
  import opened Text
  import opened Device
  import opened Commands
  import opened Replies
  import opened Dispatch

  /** Text that matches no guard gets no reply, issues no request and leaves
      the session alone. */
  lemma UnknownIsSilent(s: Session, body: string, device: Oracle)
    requires forall b :: !Guard(b, Lower(body))
    ensures HandleAsWritten(s, body, device) == Outcome(s, [], [])
  {
    HandleAsWrittenIsStep(s, body, device);
  }

  /** "menu" and "/help", in any letter case, send the menu and nothing else. */
  lemma MenuOnRequest(s: Session, body: string, device: Oracle)
    requires Lower(body) == "menu" || Lower(body) == "/help"
    ensures HandleAsWritten(s, body, device) == Outcome(s, [Menu], [])
    ensures Render(Menu) == HelpText
  {
    HandleAsWrittenIsStep(s, body, device);
    assert Guard(MenuBranch, Lower(body));
    RecognizeIffGuard(MenuBranch, Lower(body));
  }

  /** `/connect` stores the three tokens, marks the session connected whatever
      the arguments (no request is made to check them), and always answers
      with the "saved" message. */
  lemma ConnectStores(s: Session, url: string, username: Option<string>, password: Option<string>, device: Oracle)
    ensures Step(s, Connect(url, username, password), device)
         == Outcome(Session(true, url, username, password), [Saved], [])
    ensures Render(Saved) == SavedText
  {
  }

  /** The `/status` reply depends only on the connected flag. */
  lemma StatusDependsOnlyOnFlag(s1: Session, s2: Session, d1: Oracle, d2: Oracle)
    requires s1.connected == s2.connected
    ensures Step(s1, Status, d1).replies == Step(s2, Status, d2).replies
    ensures Step(s1, Status, d1).requests == []
    ensures Render(Step(s1, Status, d1).replies[0])
         == if s1.connected then ConnectedText else DisconnectedText
  {
  }

  /** `/resource` while disconnected answers "not connected" and never calls
      the device. */
  lemma ResourceNeedsConnection(s: Session, device: Oracle)
    requires !s.connected
    ensures Step(s, Resource, device) == Outcome(s, [NotConnected], [])
  {
  }

  /** `/resource` while connected issues one GET of `/system/resource` and
      reports what came back, or the failure message when nothing did. */
  lemma ResourceWhenConnected(s: Session, device: Oracle)
    requires s.connected
    ensures var q := Request(Get, s.baseUrl + "/system/resource", s.username, s.password, None);
      && Step(s, Resource, device).requests == [q]
      && Step(s, Resource, device).replies
         == [if device(q).Some? then ResourceReport(device(q).value) else ResourceFailed]
  {
  }

  /** `/total_hotspot` issues its three GETs in order, even when an earlier
      one fails, and is all or nothing: the totals only when all three
      answered, the failure message otherwise. */
  lemma TotalHotspotAllOrNothing(s: Session, device: Oracle)
    ensures var qu := GetRequest(s, "/ip/hotspot/user");
      var qa := GetRequest(s, "/ip/hotspot/active");
      var qh := GetRequest(s, "/ip/hotspot/host");
      && Step(s, TotalHotspot, device).requests == [qu, qa, qh]
      && (Step(s, TotalHotspot, device).replies == [HotspotFailed]
          <==> device(qu).None? || device(qa).None? || device(qh).None?)
      && (device(qu).Some? && device(qa).Some? && device(qh).Some? ==>
          Step(s, TotalHotspot, device).replies
          == [HotspotTotals(device(qu).value, device(qa).value, device(qh).value)])
  {
  }

  /** `/hotspot_find` issues two GETs in order and sends the failure message
      unless both answered. */
  lemma HotspotFindNeedsBoth(s: Session, token: string, device: Oracle)
    ensures var qu := GetRequest(s, "/ip/hotspot/user");
      var qa := GetRequest(s, "/ip/hotspot/active");
      && Step(s, HotspotFind(token), device).requests == [qu, qa]
      && (device(qu).None? || device(qa).None? <==>
          Step(s, HotspotFind(token), device).replies == [HotspotFailed])
  {
  }

  /** With both lists available: "not found" exactly when no user name
      contains the search token; otherwise exactly the matching users and
      the matching active sessions, each in list order. */
  lemma HotspotFindMatches(s: Session, token: string, device: Oracle, us: seq<Record>, act: seq<Record>)
    requires device(GetRequest(s, "/ip/hotspot/user")) == Some(Array(us))
    requires device(GetRequest(s, "/ip/hotspot/active")) == Some(Array(act))
    requires AllHave(us, "name") && AllHave(act, "user")
    ensures Step(s, HotspotFind(token), device).replies == [NotFound(token)]
        <==> forall i :: 0 <= i < |us| ==> !Includes(Lower(us[i]["name"]), token)
    ensures (exists i :: 0 <= i < |us| && Includes(Lower(us[i]["name"]), token)) ==>
      Step(s, HotspotFind(token), device).replies
      == [Found(MatchingUsers(us, token), MatchingActive(act, token), token)]
    ensures forall u :: u in MatchingUsers(us, token) <==> u in us && Includes(Lower(u["name"]), token)
    ensures forall a :: a in MatchingActive(act, token) <==> a in act && Includes(Lower(a["user"]), token)
  {
    var matched := MatchingUsers(us, token);
    if |matched| > 0 {
      assert matched[0] in matched;
      var k :| 0 <= k < |us| && us[k] == matched[0];
      assert NameMatches(us[k], "name", token);
    } else {
      forall i | 0 <= i < |us| ensures !Includes(Lower(us[i]["name"]), token) {
        assert us[i] in us;
        assert us[i] !in matched;
      }
    }
    forall a | a in act ensures "user" in a {
      var k :| 0 <= k < |act| && act[k] == a;
    }
    forall u | u in us ensures "name" in u {
      var k :| 0 <= k < |us| && us[k] == u;
    }
  }

  /** A user or session record without the compared field makes the search
      throw: nothing is sent. */
  lemma HotspotFindMissingField(s: Session, token: string, device: Oracle, us: seq<Record>, act: seq<Record>)
    requires device(GetRequest(s, "/ip/hotspot/user")) == Some(Array(us))
    requires device(GetRequest(s, "/ip/hotspot/active")) == Some(Array(act))
    requires !AllHave(us, "name") || !AllHave(act, "user")
    ensures Step(s, HotspotFind(token), device).replies == []
  {
  }

  /** The empty search token (a message "/hotspot_find " with nothing after
      the space) is contained in every name, so every user matches. */
  lemma EmptyTokenMatchesEveryone(us: seq<Record>)
    requires AllHave(us, "name")
    ensures MatchingUsers(us, "") == us
  {
    FilterKeepsAll(us, (u: Record) => NameMatches(u, "name", ""));
  }

  /** `/hotspot_find bob` against one user "bobby" and no active session
      finds that user and no session. */
  lemma HotspotFindStep(s: Session, device: Oracle, bobby: Record)
    requires bobby == map["name" := "bobby", "password" := "pw", "profile" := "default"]
    requires device(GetRequest(s, "/ip/hotspot/user")) == Some(Array([bobby]))
    requires device(GetRequest(s, "/ip/hotspot/active")) == Some(Array([]))
    ensures Step(s, HotspotFind("bob"), device).replies == [Found([bobby], [], "bob")]
  {
    assert Lower("bobby") == "bobby";
    assert StartsWith("bobby", "bob");
    assert NameMatches(bobby, "name", "bob");
    assert MatchingUsers([bobby], "bob") == [bobby];
  }

  /** The same search written as the message "/hotspot_find Bob": the token is
      lower-cased before it is matched. */
  lemma HotspotFindExample(s: Session, device: Oracle, bobby: Record)
    requires bobby == map["name" := "bobby", "password" := "pw", "profile" := "default"]
    requires device(GetRequest(s, "/ip/hotspot/user")) == Some(Array([bobby]))
    requires device(GetRequest(s, "/ip/hotspot/active")) == Some(Array([]))
    ensures HandleAsWritten(s, "/hotspot_find Bob", device).replies == [Found([bobby], [], "bob")]
  {
    FindTokenExample();
    HandleAsWrittenIsStep(s, "/hotspot_find Bob", device);
    HotspotFindStep(s, device, bobby);
  }

  /** `/interface_list` issues one GET of `/interface`: an array is listed,
      a failed request gets the failure message, and a plain object makes
      `forEach` throw, so nothing is sent. */
  lemma InterfaceListReply(s: Session, device: Oracle)
    ensures var q := GetRequest(s, "/interface");
      && Step(s, InterfaceList, device).requests == [q]
      && Step(s, InterfaceList, device).replies
         == match device(q)
            case None => [InterfacesFailed]
            case Some(Array(xs)) => [Interfaces(xs)]
            case Some(Object(_)) => []
  {
  }

  /** `/netwatch_down` issues one GET of `/tool/netwatch`, with the same
      three outcomes as the interface list. */
  lemma NetwatchReply(s: Session, device: Oracle)
    ensures var q := GetRequest(s, "/tool/netwatch");
      && Step(s, NetwatchDown, device).requests == [q]
      && Step(s, NetwatchDown, device).replies
         == match device(q)
            case None => [NetwatchFailed]
            case Some(Array(xs)) => [NetwatchList(xs)]
            case Some(Object(_)) => []
  {
  }

  /** `/interface_disable <name>` and `/interface_enable <name>` send one PATCH
      of `/interface/<name>` with `disabled` set to "true" / "false", and
      report success exactly when the device answered. */
  lemma InterfaceToggle(s: Session, name: string, device: Oracle)
    ensures var q := Request(Patch, s.baseUrl + "/interface/" + name, s.username, s.password, Some("true"));
      Step(s, InterfaceDisable(name), device) == Outcome(s, [Toggled(name, "disable", device(q).Some?)], [q])
    ensures var q := Request(Patch, s.baseUrl + "/interface/" + name, s.username, s.password, Some("false"));
      Step(s, InterfaceEnable(name), device) == Outcome(s, [Toggled(name, "enable", device(q).Some?)], [q])
  {
    assert s.baseUrl + ("/interface/" + name) == s.baseUrl + "/interface/" + name;
  }

  /** The message "/interface_disable Eth" patches `/interface/eth`:
      the name is token 1 of the lower-cased text. */
  lemma InterfaceDisableExample(s: Session, device: Oracle)
    ensures var q := Request(Patch, s.baseUrl + "/interface/" + "eth", s.username, s.password, Some("true"));
      HandleAsWritten(s, "/interface_disable Eth", device)
      == Outcome(s, [Toggled("eth", "disable", device(q).Some?)], [q])
  {
    DisableTokenExample();
    HandleAsWrittenIsStep(s, "/interface_disable Eth", device);
    InterfaceToggle(s, "eth", device);
  }

  /** `/total_pppoe` issues one GET and reports the count, or the failure
      message. */
  lemma TotalPppoeReply(s: Session, device: Oracle)
    ensures var q := GetRequest(s, "/interface/pppoe-server/active");
      && Step(s, TotalPppoe, device).requests == [q]
      && Step(s, TotalPppoe, device).replies
         == [if device(q).Some? then PppoeTotal(device(q).value) else PppoeFailed]
  {
  }
}
