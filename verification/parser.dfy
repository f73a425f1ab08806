/** Turning a payload into a request: `explode(':', …)` with no limit, and
    the positional reading of its fields as command, user, server and an
    optional password. */
module Parser {
  import opened Wrappers
  import opened Octets

  /** The byte string holds no colon. */
  predicate NoColon(s: Bytes)
  {
    forall i :: 0 <= i < |s| ==> s[i] != COLON
  }

  /** No field holds a colon. */
  predicate ColonFree(fields: seq<Bytes>)
  {
    forall i :: 0 <= i < |fields| ==> NoColon(fields[i])
  }

  /** `join(':', fields)`: the fields with one colon between neighbours. */
  function Join(fields: seq<Bytes>): Bytes
    requires |fields| > 0
  {
    if |fields| == 1 then fields[0] else fields[0] + [COLON] + Join(fields[1..])
  }

  /** The position of the first colon of `s`. */
  function FirstColon(s: Bytes): (i: nat)
    requires COLON in s
    ensures i < |s| && s[i] == COLON
    ensures NoColon(s[..i])
  {
    if s[0] == COLON then 0
    else
      var i := 1 + FirstColon(s[1..]);
      assert s[..i] == [s[0]] + s[1..][..i - 1];
      i
  }

  /** `explode(':', s)`: cuts at every colon. There is one field more than
      there are colons, no field holds a colon, and joining the fields gives
      back `s`. */
  function Split(s: Bytes): (fields: seq<Bytes>)
    ensures |fields| == multiset(s)[COLON] + 1
    ensures ColonFree(fields)
    ensures Join(fields) == s
    decreases |s|
  {
    if COLON !in s then
      assert multiset(s)[COLON] == 0;
      [s]
    else
      var i := FirstColon(s);
      var tail := Split(s[i + 1..]);
      assert s == s[..i] + [COLON] + s[i + 1..];
      assert multiset(s[..i])[COLON] == 0;
      assert ([s[..i]] + tail)[1..] == tail;
      [s[..i]] + tail
  }

  /** A field without colons is not cut. */
  lemma SplitField(f: Bytes)
    requires NoColon(f)
    ensures Split(f) == [f]
  {
  }

  /** The first colon ends the first field. */
  lemma SplitAtColon(f: Bytes, rest: Bytes)
    requires NoColon(f)
    ensures Split(f + [COLON] + rest) == [f] + Split(rest)
  {
    var s := f + [COLON] + rest;
    var i := FirstColon(s);
    assert s[|f|] == COLON;
    assert i == |f|;
    assert s[..i] == f && s[i + 1..] == rest;
  }

  /** Splitting undoes joining, for fields without colons. */
  lemma {:induction false} SplitJoin(fields: seq<Bytes>)
    requires |fields| > 0
    requires ColonFree(fields)
    ensures Split(Join(fields)) == fields
  {
    if |fields| == 1 {
      SplitField(fields[0]);
    } else {
      SplitJoin(fields[1..]);
      SplitAtColon(fields[0], Join(fields[1..]));
    }
  }

  /** The associative array built by `parseMessage`; a missing fourth field
      is the PHP `null` password. */
  datatype Request = Request(command: Bytes, user: Bytes, server: Bytes, password: Option<Bytes>)

  /** What `parseMessage` ends in. A short message carries the text its
      exception message rebuilds with `join(':', …)`. */
  datatype Parsed = Message(req: Request) | TooShort(text: Bytes)

  /** The fields of a request, in wire order. */
  function Fields(req: Request): seq<Bytes>
  {
    if req.password.Some? then [req.command, req.user, req.server, req.password.value]
    else [req.command, req.user, req.server]
  }

  /** The payload the authenticating peer sends for a request:
      `command:user:server` or `command:user:server:password`. */
  function Format(req: Request): Bytes
  {
    Join(Fields(req))
  }

  /** The payload reads as `req`: it is the request's own payload, or, when
      there is a password, that payload followed by a colon and anything at
      all, which is not part of the password. */
  ghost predicate Describes(payload: Bytes, req: Request)
  {
    && ColonFree(Fields(req))
    && (payload == Format(req) || (req.password.Some? && Format(req) + [COLON] <= payload))
  }

  /** Joining two non-empty runs of fields puts one colon between them. */
  lemma {:induction false} JoinAppend(a: seq<Bytes>, b: seq<Bytes>)
    requires |a| > 0 && |b| > 0
    ensures Join(a + b) == Join(a) + [COLON] + Join(b)
  {
    assert (a + b)[0] == a[0];
    assert (a + b)[1..] == a[1..] + b;
    if |a| > 1 {
      JoinAppend(a[1..], b);
      assert Join(a + b) == a[0] + [COLON] + (Join(a[1..]) + [COLON] + Join(b));
    }
  }

  /** The request read from three or more fields: the first three, and the
      fourth as the password when there is one. */
  function RequestOf(fields: seq<Bytes>): Request
    requires |fields| >= 3
  {
    Request(fields[0], fields[1], fields[2], if |fields| > 3 then Some(fields[3]) else None)
  }

  /** The request read from fields keeps the first four of them. */
  lemma FieldsOfRequestOf(fields: seq<Bytes>)
    requires |fields| >= 3
    ensures |Fields(RequestOf(fields))| == if |fields| > 4 then 4 else |fields|
    ensures Fields(RequestOf(fields)) == fields[..|Fields(RequestOf(fields))|]
  {
  }

  lemma ColonFreePrefix(fields: seq<Bytes>, n: nat)
    requires n <= |fields|
    requires ColonFree(fields)
    ensures ColonFree(fields[..n])
  {
    forall i | 0 <= i < n
      ensures NoColon(fields[..n][i])
    {
      assert fields[..n][i] == fields[i];
    }
  }

  /** Colon-free fields, joined, describe the request read from them. */
  lemma JoinedFieldsDescribe(fields: seq<Bytes>)
    requires |fields| >= 3
    requires ColonFree(fields)
    ensures Describes(Join(fields), RequestOf(fields))
  {
    var kept := Fields(RequestOf(fields));
    FieldsOfRequestOf(fields);
    ColonFreePrefix(fields, |kept|);
    if |kept| < |fields| {
      assert fields == kept + fields[|kept|..];
      JoinAppend(kept, fields[|kept|..]);
    } else {
      assert kept == fields;
    }
  }

  /** `parseMessage`: fewer than two colons is too short, and the error text
      is the payload itself; otherwise the request is the one the payload
      describes. */
  function ParseMessage(payload: Bytes): (r: Parsed)
    ensures r.TooShort? <==> multiset(payload)[COLON] < 2
    ensures r.TooShort? ==> r.text == payload
    ensures r.Message? ==> Describes(payload, r.req)
  {
    var fields := Split(payload);
    if |fields| < 3 then TooShort(Join(fields))
    else
      JoinedFieldsDescribe(fields);
      Message(RequestOf(fields))
  }

  /** The payload describes at most one request, and `parseMessage` finds it. */
  lemma ParseDescribed(payload: Bytes, req: Request)
    requires Describes(payload, req)
    ensures ParseMessage(payload) == Message(req)
  {
    if payload == Format(req) {
      SplitJoin(Fields(req));
      assert RequestOf(Fields(req)) == req;
    } else {
      ParseExtended(payload, req);
    }
  }

  /** Fields after the password are read and dropped. */
  lemma ParseExtended(payload: Bytes, req: Request)
    requires ColonFree(Fields(req)) && req.password.Some?
    requires Format(req) + [COLON] <= payload
    ensures ParseMessage(payload) == Message(req)
  {
    var rest := payload[|Format(req)| + 1..];
    assert payload == Format(req) + [COLON] + rest;
    var fields := Fields(req) + Split(rest);
    JoinAppend(Fields(req), Split(rest));
    SplitJoin(fields);
    assert Split(payload) == fields;
    assert RequestOf(fields) == req;
  }

  /** A request whose fields hold no colon is parsed back unchanged. */
  lemma ParseFormat(req: Request)
    requires ColonFree(Fields(req))
    ensures ParseMessage(Format(req)) == Message(req)
  {
    ParseDescribed(Format(req), req);
  }

  /** A password holding a colon is cut at its first colon: only the part
      before it reaches the provider, and the rest is dropped. */
  lemma ColonInPasswordTruncates(command: Bytes, user: Bytes, server: Bytes, kept: Bytes, dropped: Bytes)
    requires NoColon(command) && NoColon(user) && NoColon(server) && NoColon(kept)
    ensures ParseMessage(Format(Request(command, user, server, Some(kept + [COLON] + dropped))))
            == Message(Request(command, user, server, Some(kept)))
  {
    var req := Request(command, user, server, Some(kept));
    var sent := Request(command, user, server, Some(kept + [COLON] + dropped));
    var head := [command, user, server];
    assert Fields(req) == head + [kept];
    assert Fields(sent) == head + [kept + [COLON] + dropped];
    JoinAppend(head, [kept]);
    JoinAppend(head, [kept + [COLON] + dropped]);
    assert Format(sent) == Join(head) + [COLON] + (kept + [COLON] + dropped);
    assert Format(sent) == Format(req) + [COLON] + dropped;
    ParseDescribed(Format(sent), req);
  }
}
