/** Command recognition: the whole message is lower-cased, then matched
    against eleven independent guards (exact keywords and space-terminated
    prefixes) in the order the message handler lists them. */
module Commands {
  import opened Wrappers
  import opened Text

  /** What a message asks for. Arguments are tokens of `split(' ')` of the
      lower-cased message; `Unknown` is a message no guard accepts. */
  datatype Command =
    | Help
    | Connect(url: string, username: Option<string>, password: Option<string>)
    | Status
    | Resource
    | InterfaceList
    | InterfaceDisable(name: string)
    | InterfaceEnable(name: string)
    | TotalHotspot
    | HotspotFind(name: string)
    | TotalPppoe
    | NetwatchDown
    | Unknown

  /** The eleven `if` blocks of the message handler. */
  datatype Branch =
    | MenuBranch
    | ConnectBranch
    | StatusBranch
    | ResourceBranch
    | InterfaceListBranch
    | DisableBranch
    | EnableBranch
    | TotalHotspotBranch
    | HotspotFindBranch
    | TotalPppoeBranch
    | NetwatchBranch

  /** The blocks in the order the handler tests them. */
  const SourceOrder: seq<Branch> := [
    MenuBranch, ConnectBranch, StatusBranch, ResourceBranch, InterfaceListBranch,
    DisableBranch, EnableBranch, TotalHotspotBranch, HotspotFindBranch,
    TotalPppoeBranch, NetwatchBranch]

  const ConnectPrefix := "/connect "
  const DisablePrefix := "/interface_disable "
  const EnablePrefix := "/interface_enable "
  const FindPrefix := "/hotspot_find "

  /** The condition of each block, on the lower-cased text. */
  predicate Guard(b: Branch, t: string) {
    match b
    case MenuBranch => t == "menu" || t == "/help"
    case ConnectBranch => StartsWith(t, ConnectPrefix)
    case StatusBranch => t == "/status"
    case ResourceBranch => t == "/resource"
    case InterfaceListBranch => t == "/interface_list"
    case DisableBranch => StartsWith(t, DisablePrefix)
    case EnableBranch => StartsWith(t, EnablePrefix)
    case TotalHotspotBranch => t == "/total_hotspot"
    case HotspotFindBranch => StartsWith(t, FindPrefix)
    case TotalPppoeBranch => t == "/total_pppoe"
    case NetwatchBranch => t == "/netwatch_down"
  }

  /** The first block, in source order, whose guard accepts `t`. */
  function Recognize(t: string): Option<Branch> {
    if Guard(MenuBranch, t) then Some(MenuBranch)
    else if Guard(ConnectBranch, t) then Some(ConnectBranch)
    else if Guard(StatusBranch, t) then Some(StatusBranch)
    else if Guard(ResourceBranch, t) then Some(ResourceBranch)
    else if Guard(InterfaceListBranch, t) then Some(InterfaceListBranch)
    else if Guard(DisableBranch, t) then Some(DisableBranch)
    else if Guard(EnableBranch, t) then Some(EnableBranch)
    else if Guard(TotalHotspotBranch, t) then Some(TotalHotspotBranch)
    else if Guard(HotspotFindBranch, t) then Some(HotspotFindBranch)
    else if Guard(TotalPppoeBranch, t) then Some(TotalPppoeBranch)
    else if Guard(NetwatchBranch, t) then Some(NetwatchBranch)
    else None
  }

  /** Every guard that accepts `t` is the one `Recognize` picks, so no two
      blocks of the handler ever run for the same message. */
  lemma {:induction false} GuardIsRecognized(b: Branch, t: string)
    requires Guard(b, t)
    ensures Recognize(t) == Some(b)
  {
    // the prefixes differ from each other at index 1 or 11, and from every
    // keyword at index 1 or in length
    PrefixChar(t, ConnectPrefix, 1);
    PrefixChar(t, DisablePrefix, 1);
    PrefixChar(t, DisablePrefix, 11);
    PrefixChar(t, EnablePrefix, 1);
    PrefixChar(t, EnablePrefix, 11);
    PrefixChar(t, FindPrefix, 1);
  }

  /** A text starting with `p` agrees with `p` at every index of `p`. */
  lemma PrefixChar(t: string, p: string, k: nat)
    requires k < |p|
    ensures StartsWith(t, p) ==> |t| >= |p| && t[k] == p[k]
  {
    if StartsWith(t, p) {
      assert t[..|p|][k] == t[k];
    }
  }

  /** A guard accepts `t` exactly when `Recognize` returns its block. */
  lemma RecognizeIffGuard(b: Branch, t: string)
    ensures Guard(b, t) <==> Recognize(t) == Some(b)
  {
    if Guard(b, t) {
      GuardIsRecognized(b, t);
    }
  }

  /** At most one of the handler's blocks fires for any text. */
  lemma AtMostOneBranch(b1: Branch, b2: Branch, t: string)
    requires Guard(b1, t) && Guard(b2, t)
    ensures b1 == b2
  {
    GuardIsRecognized(b1, t);
    GuardIsRecognized(b2, t);
  }

  /** Token 1 of `split(' ')` of a text that starts with a space-terminated
      prefix. */
  function FirstArgument(t: string, prefix: string): (a: string)
    requires |prefix| > 0 && prefix[|prefix| - 1] == ' ' && StartsWith(t, prefix)
    ensures |Split(t)| >= 2 && a == Split(t)[1]
  {
    assert t[..|prefix|][|prefix| - 1] == t[|prefix| - 1];
    SplitHasSecondToken(t, |prefix| - 1);
    Split(t)[1]
  }

  /** The command the block `b` carries out on the lower-cased text `t`. */
  function Parse(b: Branch, t: string): Command
    requires Guard(b, t)
  {
    match b
    case MenuBranch => Help
    case ConnectBranch =>
      Connect(FirstArgument(t, ConnectPrefix), Token(Split(t), 2), Token(Split(t), 3))
    case StatusBranch => Status
    case ResourceBranch => Resource
    case InterfaceListBranch => InterfaceList
    case DisableBranch => InterfaceDisable(FirstArgument(t, DisablePrefix))
    case EnableBranch => InterfaceEnable(FirstArgument(t, EnablePrefix))
    case TotalHotspotBranch => TotalHotspot
    case HotspotFindBranch => HotspotFind(Lower(FirstArgument(t, FindPrefix)))
    case TotalPppoeBranch => TotalPppoe
    case NetwatchBranch => NetwatchDown
  }

  /** The block a (known) command comes from. */
  function BranchOf(c: Command): Branch
    requires !c.Unknown?
  {
    match c
    case Help => MenuBranch
    case Connect(_, _, _) => ConnectBranch
    case Status => StatusBranch
    case Resource => ResourceBranch
    case InterfaceList => InterfaceListBranch
    case InterfaceDisable(_) => DisableBranch
    case InterfaceEnable(_) => EnableBranch
    case TotalHotspot => TotalHotspotBranch
    case HotspotFind(_) => HotspotFindBranch
    case TotalPppoe => TotalPppoeBranch
    case NetwatchDown => NetwatchBranch
  }

  /** Classification of an incoming message body: lower-case it, find the
      block whose guard accepts it, and read that block's arguments. A message
      is `Unknown` exactly when no guard accepts it; otherwise the command
      comes from the one block that does. */
  function Classify(body: string): (c: Command)
    ensures c.Unknown? <==> forall b :: !Guard(b, Lower(body))
    ensures !c.Unknown? ==> Guard(BranchOf(c), Lower(body))
    ensures !c.Unknown? ==> c == Parse(BranchOf(c), Lower(body))
  {
    var t := Lower(body);
    match Recognize(t)
    case None =>
      assert forall b :: !Guard(b, t) by {
        forall b ensures !Guard(b, t) {
          RecognizeIffGuard(b, t);
        }
      }
      Unknown
    case Some(b) =>
      RecognizeIffGuard(b, t);
      BranchOfParse(b, t);
      Parse(b, t)
  }

  /** A block's command leads back to the block. */
  lemma BranchOfParse(b: Branch, t: string)
    requires Guard(b, t)
    ensures !Parse(b, t).Unknown? && BranchOf(Parse(b, t)) == b
  {
  }

  /** `/connect` stores tokens 1-3 of `split(' ')` of the lower-cased message,
      tokens 2 and 3 being `undefined` when the message is too short, and none
      of them keeps an upper-case letter. */
  lemma ConnectArguments(body: string)
    requires Classify(body).Connect?
    ensures var ts := Split(Lower(body));
      && |ts| >= 2
      && Classify(body).url == ts[1]
      && Classify(body).username == Token(ts, 2)
      && Classify(body).password == Token(ts, 3)
    ensures NoUpper(Classify(body).url)
    ensures Classify(body).username.Some? ==> NoUpper(Classify(body).username.value)
    ensures Classify(body).password.Some? ==> NoUpper(Classify(body).password.value)
  {
    SplitKeepsNoUpper(Lower(body));
  }

  /** Tokens of text without upper-case letters have none either. */
  lemma {:induction false} SplitKeepsNoUpper(s: string)
    requires NoUpper(s)
    ensures forall i :: 0 <= i < |Split(s)| ==> NoUpper(Split(s)[i])
    decreases |s|
  {
    if |s| > 0 {
      assert NoUpper(s[1..]);
      SplitKeepsNoUpper(s[1..]);
      var rest := Split(s[1..]);
      if s[0] != ' ' {
        assert NoUpper([s[0]] + rest[0]);
      }
    }
  }

  /** Lower-casing happens before matching: keywords match in any case. */
  lemma KeywordsIgnoreCase()
    ensures Classify("MENU") == Help
    ensures Classify("/Status") == Status
  {
    assert Lower("MENU") == "menu";
    assert Lower("/Status") == "/status";
  }

  /** A bare "/connect" without the trailing space matches nothing: it is
      shorter than every prefix and equals no keyword. */
  lemma BareConnectUnmatched()
    ensures Classify("/connect") == Unknown
  {
    var t := "/connect";
    assert Lower(t) == t;
    forall b ensures !Guard(b, t) {
      assert |t| == 8;
    }
  }

  /** Ordinary chat text matches nothing. */
  lemma ChatTextUnmatched()
    ensures Classify("hello") == Unknown
  {
    var t := "hello";
    assert Lower(t) == t;
    forall b ensures !Guard(b, t) {
      assert t[0] == 'h';
    }
  }

  /** A message that passes the `/connect ` guard is classified by its tokens. */
  lemma ClassifyConnect(body: string, ts: seq<string>)
    requires StartsWith(Lower(body), ConnectPrefix)
    requires Split(Lower(body)) == ts
    ensures |ts| >= 2
    ensures Classify(body) == Connect(ts[1], Token(ts, 2), Token(ts, 3))
  {
    var c := Classify(body);
    assert !c.Unknown?;
    AtMostOneBranch(BranchOf(c), ConnectBranch, Lower(body));
  }

  /** A full `/connect` line: the address and credentials come out lower-cased. */
  lemma ConnectExample()
    ensures Classify("/connect http://r1 Admin Pw")
         == Connect("http://r1", Some("admin"), Some("pw"))
  {
    var body := "/connect http://r1 Admin Pw";
    var t := "/connect http://r1 admin pw";
    var ts := ["/connect", "http://r1", "admin", "pw"];
    assert Lower(body) == t;
    assert t[..9] == ConnectPrefix;
    ConnectExampleTokens(t, ts);
    ClassifyConnect(body, ts);
  }

  lemma ConnectExampleTokens(t: string, ts: seq<string>)
    requires t == "/connect http://r1 admin pw"
    requires ts == ["/connect", "http://r1", "admin", "pw"]
    ensures Split(t) == ts
  {
    assert ts[1..] == ["http://r1", "admin", "pw"];
    assert ts[2..] == ["admin", "pw"];
    assert Join(["admin", "pw"]) == "admin pw";
    assert Join(ts[1..]) == "http://r1 admin pw";
    assert Join(ts) == t;
    SplitJoin(ts);
  }

  /** `/hotspot_find` takes token 1 of the lower-cased text as its search
      token. */
  lemma FindTokenExample()
    ensures Classify("/hotspot_find Bob") == HotspotFind("bob")
  {
    var body := "/hotspot_find Bob";
    var t := "/hotspot_find bob";
    var ts := ["/hotspot_find", "bob"];
    assert Lower(body) == t;
    assert t[..14] == FindPrefix;
    assert ts[1..] == ["bob"];
    assert Join(ts) == t;
    SplitJoin(ts);
    assert Lower("bob") == "bob";
    var c := Classify(body);
    assert Guard(HotspotFindBranch, t);
    assert !c.Unknown?;
    AtMostOneBranch(BranchOf(c), HotspotFindBranch, t);
  }

  /** `/interface_disable` takes token 1 of the lower-cased text as the
      interface name. */
  lemma DisableTokenExample()
    ensures Classify("/interface_disable Eth") == InterfaceDisable("eth")
  {
    var t := "/interface_disable eth";
    DisableTokenText();
    DisableTokenSplit();
    var c := Classify("/interface_disable Eth");
    assert !c.Unknown?;
    AtMostOneBranch(BranchOf(c), DisableBranch, t);
  }

  /** The lower-cased message passes the `/interface_disable ` guard. */
  lemma DisableTokenText()
    ensures Lower("/interface_disable Eth") == "/interface_disable eth"
    ensures Guard(DisableBranch, "/interface_disable eth")
  {
    assert "/interface_disable eth"[..19] == DisablePrefix;
  }

  /** Splitting the lower-cased message at spaces gives the keyword and the name. */
  lemma DisableTokenSplit()
    ensures Split("/interface_disable eth") == ["/interface_disable", "eth"]
  {
    var ts := ["/interface_disable", "eth"];
    assert ts[1..] == ["eth"];
    assert Join(ts) == "/interface_disable eth";
    SplitJoin(ts);
  }

  /** Too few arguments are not rejected: the missing ones are `undefined`. */
  lemma ConnectMissingArguments()
    ensures Classify("/connect x") == Connect("x", None, None)
  {
    var body := "/connect x";
    var ts := ["/connect", "x"];
    assert Lower(body) == body;
    assert body[..9] == ConnectPrefix;
    assert ts[1..] == ["x"];
    assert Join(ts) == body;
    SplitJoin(ts);
    ClassifyConnect(body, ts);
  }
}
