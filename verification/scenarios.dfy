/** Worked exchanges: whole input streams run through the loop, with the
    exact bytes written back. */
module Scenarios {
  import opened Wrappers
  import opened Octets
  import opened Transport
  import opened Parser
  import opened Dispatch
  import Response
  import opened Logger
  import opened Engine

  const BOB: Bytes := Ascii("bob")
  const X: Bytes := Ascii("x")

  lemma AsciiAppend(s: string, t: string)
    requires OneByte(s) && OneByte(t)
    ensures Ascii(s + t) == Ascii(s) + Ascii(t)
  {
  }

  /** The text `a:b:c` is the payload of the request with those fields and
      no password. */
  lemma TextFields(a: string, b: string, c: string)
    requires OneByte(a) && OneByte(b) && OneByte(c)
    ensures OneByte(a + ":" + b + ":" + c)
    ensures Ascii(a + ":" + b + ":" + c) == Format(Request(Ascii(a), Ascii(b), Ascii(c), None))
  {
    AsciiAppend(a, ":");
    AsciiAppend(a + ":", b);
    AsciiAppend(a + ":" + b, ":");
    AsciiAppend(a + ":" + b + ":", c);
    assert Ascii(":") == [COLON];
    var fields := [Ascii(a), Ascii(b), Ascii(c)];
    assert fields[1..][1..] == [Ascii(c)];
    assert Join(fields[1..]) == Ascii(b) + [COLON] + Ascii(c);
  }

  lemma AuthPayload()
    ensures Ascii("auth:bob:x") == Format(Request(AUTH, BOB, X, None))
  {
    assert "auth:bob:x" == "auth" + ":" + "bob" + ":" + "x";
    TextFields("auth", "bob", "x");
  }

  /** The payload has no inner newline and no colon inside a field. */
  lemma AuthPayloadIsPlain()
    ensures ColonFree(Fields(Request(AUTH, BOB, X, None)))
    ensures forall i :: 0 <= i < |Ascii("auth:bob:x")| ==> Ascii("auth:bob:x")[i] != NEWLINE
  {
  }

  /** A core provider that accepts bob at server x without a password. */
  const BOB_AT_X: Provider := Provider(false, (history: seq<Call>, c: Call) => Returned(c == Authenticate(BOB, X, None)))

  /** The frame `00 0A` "auth:bob:x" is read and parsed as one request. */
  lemma AuthFrame()
    ensures Receive([0x00, 0x0A] + Ascii("auth:bob:x")) == Got(Request(AUTH, BOB, X, None), [])
  {
    var payload := Ascii("auth:bob:x");
    AuthPayload();
    AuthPayloadIsPlain();
    assert Pack16(10) == [0x00, 0x0A];
    assert [0x00, 0x0A] + payload == EncodeFrame(payload) + [];
    ReceiveFrame(Request(AUTH, BOB, X, None), []);
  }

  /** The frame `00 0A` "auth:bob:x" calls `authenticate("bob", "x", null)`
      and, when that returns true, gets back `00 02 00 01`. */
  lemma AuthScenario()
    ensures var t := Run(BOB_AT_X, [], [0x00, 0x0A] + Ascii("auth:bob:x"));
            && t.output == [0x00, 0x02, 0x00, 0x01]
            && t.calls == [Authenticate(BOB, X, None)]
            && t.exit == EndOfInput
  {
    var call := Authenticate(BOB, X, None);
    var input := [0x00, 0x0A] + Ascii("auth:bob:x");
    AuthFrame();
    assert Handle(BOB_AT_X, [], Request(AUTH, BOB, X, None)) == Answered([call], true);
    RunAnsweredStep(BOB_AT_X, [], input);
    RunAtEnd(BOB_AT_X, [call], []);
    Response.WireBytes();
  }

  /** "ab:cd" has no newline. */
  lemma ShortPayloadIsPlain()
    ensures forall i :: 0 <= i < |Ascii("ab:cd")| ==> Ascii("ab:cd")[i] != NEWLINE
  {
  }

  lemma ShortText()
    ensures Ascii("ab:cd") == Ascii("ab") + [COLON] + Ascii("cd")
    ensures NoColon(Ascii("ab")) && NoColon(Ascii("cd"))
  {
    assert "ab:cd" == "ab" + ":" + "cd";
    AsciiAppend("ab", ":");
    AsciiAppend("ab:", "cd");
    assert Ascii(":") == [COLON];
  }

  /** "ab:cd" has one colon only. */
  lemma ShortPayload()
    ensures multiset(Ascii("ab:cd"))[COLON] == 1
  {
    ShortText();
    SplitAtColon(Ascii("ab"), Ascii("cd"));
    SplitField(Ascii("cd"));
  }

  /** The frame `00 05` "ab:cd" gets no response and calls nothing; one
      error is logged, and the frame after it is read as if it came first. */
  lemma ShortScenario(p: Provider, more: Bytes)
    ensures var t := Run(p, [], [0x00, 0x05] + Ascii("ab:cd") + more);
            var u := Run(p, [], more);
            && t.output == u.output
            && t.calls == u.calls
            && t.exit == u.exit
            && t.log == [Entry(Error, TooShortSkipped(Ascii("ab:cd")))] + u.log
  {
    var payload := Ascii("ab:cd");
    ShortPayload();
    ShortPayloadIsPlain();
    assert Pack16(5) == [0x00, 0x05];
    assert [0x00, 0x05] + payload + more == EncodeFrame(payload) + more;
    FrameRoundTrip(payload, more);
    TooShortResumes(p, [], EncodeFrame(payload) + more, payload, more);
  }

  lemma RemoveUserPayload()
    ensures Ascii("removeuser:bob:x") == Format(Request(REMOVEUSER, BOB, X, None))
  {
    assert "removeuser:bob:x" == "removeuser" + ":" + "bob" + ":" + "x";
    TextFields("removeuser", "bob", "x");
  }

  /** The payload has no inner newline and no colon inside a field. */
  lemma RemoveUserPayloadIsPlain()
    ensures ColonFree(Fields(Request(REMOVEUSER, BOB, X, None)))
    ensures forall i :: 0 <= i < |Ascii("removeuser:bob:x")| ==> Ascii("removeuser:bob:x")[i] != NEWLINE
  {
  }

  /** The frame `00 10` "removeuser:bob:x" is read and parsed as one request. */
  lemma RemoveUserFrame()
    ensures Receive([0x00, 0x10] + Ascii("removeuser:bob:x")) == Got(Request(REMOVEUSER, BOB, X, None), [])
  {
    var payload := Ascii("removeuser:bob:x");
    RemoveUserPayload();
    RemoveUserPayloadIsPlain();
    assert Pack16(16) == [0x00, 0x10];
    assert [0x00, 0x10] + payload == EncodeFrame(payload) + [];
    ReceiveFrame(Request(REMOVEUSER, BOB, X, None), []);
  }

  /** "removeuser" reaches no method of a provider without user management. */
  lemma RemoveUserUnrouted(p: Provider, history: seq<Call>)
    requires !p.userManagement
    ensures Handle(p, history, Request(REMOVEUSER, BOB, X, None)) == Answered([], false)
  {
    assert REMOVEUSER != AUTH && REMOVEUSER != ISUSER;
  }

  /** A provider without user management, whatever it would answer, gets no
      call for "removeuser:bob:x", and the peer gets back `00 02 00 00`. */
  lemma RemoveUserScenario(p: Provider)
    requires !p.userManagement
    ensures var t := Run(p, [], [0x00, 0x10] + Ascii("removeuser:bob:x"));
            && t.output == [0x00, 0x02, 0x00, 0x00]
            && t.calls == []
            && t.exit == EndOfInput
  {
    var input := [0x00, 0x10] + Ascii("removeuser:bob:x");
    RemoveUserFrame();
    RemoveUserUnrouted(p, []);
    RunAnsweredStep(p, [], input);
    RunAtEnd(p, [], []);
    Response.WireBytes();
  }
}
