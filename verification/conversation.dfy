/** A conversation: messages handled one after another on one session. */
module Conversation {
  import opened Wrappers
  import opened Text
  import opened Device
  import opened Commands
  import opened Replies
  import opened Dispatch

  /** One incoming message, with the device's answers at the time it is handled. */
  datatype Message = Message(body: string, device: Oracle)

  /** Handling messages one after another, each on the session the previous
      one left; replies and requests accumulate in order. Each message is
      handled by one step on its classified command, which is what the
      handler as written does (`HandleAsWrittenIsStep`). */
  function Run(s: Session, msgs: seq<Message>): Outcome
    decreases |msgs|
  {
    if |msgs| == 0 then Outcome(s, [], [])
    else
      var first := Step(s, Classify(msgs[0].body), msgs[0].device);
      var rest := Run(first.session, msgs[1..]);
      Outcome(rest.session, first.replies + rest.replies, first.requests + rest.requests)
  }

  /** Once connected, always connected: no command resets the flag. */
  lemma {:induction false} RunStaysConnected(s: Session, msgs: seq<Message>)
    requires s.connected
    ensures Run(s, msgs).session.connected
    decreases |msgs|
  {
    if |msgs| > 0 {
      RunStaysConnected(Step(s, Classify(msgs[0].body), msgs[0].device).session, msgs[1..]);
    }
  }

  /** Without a `/connect` message the session never changes. */
  lemma {:induction false} RunWithoutConnect(s: Session, msgs: seq<Message>)
    requires forall i :: 0 <= i < |msgs| ==> !Classify(msgs[i].body).Connect?
    ensures Run(s, msgs).session == s
    decreases |msgs|
  {
    if |msgs| > 0 {
      RunWithoutConnect(s, msgs[1..]);
    }
  }

  /** The last `/connect` wins: the session holds exactly its arguments. */
  lemma {:induction false} LastConnectWins(s: Session, msgs: seq<Message>, k: nat)
    requires k < |msgs| && Classify(msgs[k].body).Connect?
    requires forall i :: k < i < |msgs| ==> !Classify(msgs[i].body).Connect?
    ensures var c := Classify(msgs[k].body);
      Run(s, msgs).session == Session(true, c.url, c.username, c.password)
    decreases k
  {
    var next := Step(s, Classify(msgs[0].body), msgs[0].device).session;
    if k == 0 {
      RunWithoutConnect(next, msgs[1..]);
    } else {
      LastConnectWins(next, msgs[1..], k - 1);
    }
  }

  /** A `/connect` anywhere in the conversation leaves it connected. */
  lemma {:induction false} ConnectedAfterConnect(s: Session, msgs: seq<Message>, j: nat)
    requires j < |msgs| && Classify(msgs[j].body).Connect?
    ensures Run(s, msgs).session.connected
    decreases j
  {
    var next := Step(s, Classify(msgs[0].body), msgs[0].device).session;
    if j == 0 {
      RunStaysConnected(next, msgs[1..]);
    } else {
      ConnectedAfterConnect(next, msgs[1..], j - 1);
    }
  }

  /** `/status`, in any letter case, reports the connected flag and nothing else. */
  lemma StatusReply(s: Session, device: Oracle)
    ensures HandleAsWritten(s, "/status", device) == Outcome(s, [StatusNotice(s.connected)], [])
    ensures HandleAsWritten(s, "/STATUS", device) == Outcome(s, [StatusNotice(s.connected)], [])
  {
    assert Lower("/status") == "/status";
    assert Lower("/STATUS") == "/status";
    HandleAsWrittenIsStep(s, "/status", device);
    HandleAsWrittenIsStep(s, "/STATUS", device);
  }

  /** While disconnected (as at start-up), `/status` keeps reporting "not
      connected" as long as no `/connect` has been handled. */
  lemma StatusBeforeConnect(s: Session, msgs: seq<Message>, device: Oracle)
    requires !s.connected
    requires forall i :: 0 <= i < |msgs| ==> !Classify(msgs[i].body).Connect?
    ensures HandleAsWritten(Run(s, msgs).session, "/status", device).replies == [StatusNotice(false)]
  {
    RunWithoutConnect(s, msgs);
    StatusReply(s, device);
  }

  /** The process starts disconnected, so `/status` reports "not connected"
      until the first `/connect`. */
  lemma StatusFromStartUp(s: Session, msgs: seq<Message>, device: Oracle)
    requires s == Initial
    requires forall i :: 0 <= i < |msgs| ==> !Classify(msgs[i].body).Connect?
    ensures HandleAsWritten(Run(s, msgs).session, "/status", device).replies == [StatusNotice(false)]
  {
    StatusBeforeConnect(s, msgs, device);
  }

  /** After any `/connect`, `/status` reports "connected", whether or not the
      device would accept the stored address and credentials. */
  lemma StatusAfterConnect(s: Session, msgs: seq<Message>, device: Oracle, j: nat)
    requires j < |msgs| && Classify(msgs[j].body).Connect?
    ensures HandleAsWritten(Run(s, msgs).session, "/status", device).replies == [StatusNotice(true)]
  {
    ConnectedAfterConnect(s, msgs, j);
    StatusReply(Run(s, msgs).session, device);
  }
}
