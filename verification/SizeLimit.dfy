/** The request-size limiter: a declared length is checked up front, an undeclared one is metered
    as the body streams. */
module SizeLimit {
  import opened Wrappers
  import opened ContentLength

  /** An ASGI message. The body and the `more_body` flag of a request message are optional. */
  datatype Message =
    | HttpRequest(body: Option<seq<bv8>>, moreBody: Option<bool>)
    | OtherMessage(kind: string)

  function Bytes(m: Message): seq<bv8> {
    if m.HttpRequest? && m.body.Some? then m.body.value else []
  }

  /** The bytes of a message, whatever its kind. */
  function Payload(m: Message): seq<bv8> {
    match m
    case HttpRequest(Some(body), _) => body
    case _ => []
  }

  predicate IsLast(m: Message) {
    m.HttpRequest? && m.moreBody != Some(true)
  }

  // ----- the metered path -----------------------------------------------------------------

  /** `sizes` are the values recorded in the request-size histogram. */
  datatype Meter = Meter(total: nat, sizes: seq<nat>)

  datatype Received = Delivered(message: Message) | TooLarge

  function Meet(limit: int, meter: Meter, m: Message): (Meter, Received) {
    if !m.HttpRequest? then (meter, Delivered(m))
    else
      var total := meter.total + |Bytes(m)|;
      if total > limit then (Meter(total, meter.sizes), TooLarge)
      else (Meter(total, if IsLast(m) then meter.sizes + [total] else meter.sizes), Delivered(m))
  }

  class MeteredReceive {
    const limit: int
    var total: nat
    var sizes: seq<nat>

    constructor (limit: int)
      ensures this.limit == limit && total == 0 && sizes == []
    {
      this.limit := limit;
      total := 0;
      sizes := [];
    }

    /** One call of the wrapped `receive`, given what the upstream returns. */
    method Receive(m: Message) returns (r: Received)
      modifies this
      ensures (Meter(total, sizes), r) == Meet(limit, Meter(old(total), old(sizes)), m)
      // the call fails exactly when a request message brings the bytes above the limit, and
      // otherwise returns the upstream message itself
      ensures r == if m.HttpRequest? && old(total) + |Bytes(m)| > limit then TooLarge else Delivered(m)
      // every byte is counted, also those that are refused
      ensures total == old(total) + |Bytes(m)|
      // a size is recorded exactly for the last message of a body within the limit
      ensures sizes == if r.Delivered? && IsLast(m) then old(sizes) + [total] else old(sizes)
    {
      if m.HttpRequest? {
        total := total + |Bytes(m)|;
        if total > limit {
          return TooLarge;
        }
        if m.moreBody != Some(true) {
          sizes := sizes + [total];
        }
      }
      return Delivered(m);
    }

    /** An application that keeps reading, also after a failure. */
    method ReceiveAll(upstream: seq<Message>) returns (received: seq<Received>)
      modifies this
      ensures received == Replies(limit, Meter(old(total), old(sizes)), upstream)
      ensures Meter(total, sizes) == After(limit, Meter(old(total), old(sizes)), upstream)
    {
      received := [];
      ghost var start := Meter(total, sizes);
      for k := 0 to |upstream|
        invariant received + Replies(limit, Meter(total, sizes), upstream[k..]) == Replies(limit, start, upstream)
        invariant After(limit, Meter(total, sizes), upstream[k..]) == After(limit, start, upstream)
      {
        assert upstream[k..][1..] == upstream[k + 1..];
        ghost var meter := Meter(total, sizes);
        var r := Receive(upstream[k]);
        assert received + ([r] + Replies(limit, Meter(total, sizes), upstream[k + 1..])) ==
               received + [r] + Replies(limit, Meter(total, sizes), upstream[k + 1..]);
        received := received + [r];
      }
      assert upstream[|upstream|..] == [];
    }
  }

  function Replies(limit: int, meter: Meter, upstream: seq<Message>): (rs: seq<Received>)
    ensures |rs| == |upstream|
    decreases |upstream|
  {
    if upstream == [] then []
    else
      var (meter', r) := Meet(limit, meter, upstream[0]);
      [r] + Replies(limit, meter', upstream[1..])
  }

  function After(limit: int, meter: Meter, upstream: seq<Message>): Meter
    decreases |upstream|
  {
    if upstream == [] then meter else After(limit, Meet(limit, meter, upstream[0]).0, upstream[1..])
  }

  function Body(upstream: seq<Message>): seq<bv8> {
    if upstream == [] then [] else Bytes(upstream[0]) + Body(upstream[1..])
  }

  /** The body bytes that the application got to see. */
  function DeliveredBytes(rs: seq<Received>): seq<bv8> {
    if rs == [] then []
    else (if rs[0].Delivered? then Payload(rs[0].message) else []) + DeliveredBytes(rs[1..])
  }

  lemma {:induction false} BodyOfPrefix(upstream: seq<Message>, k: nat)
    requires 0 < k < |upstream|
    ensures Body(upstream[..k + 1]) == Bytes(upstream[0]) + Body(upstream[1..][..k])
  {
    assert upstream[..k + 1][1..] == upstream[1..][..k];
  }

  /** Which receive fails, and what the others hand over: the upstream message itself, unless it
      is a request message that brings the bytes so far above the limit. */
  lemma {:induction false} ReplyAt(limit: int, meter: Meter, upstream: seq<Message>, k: nat)
    requires k < |upstream|
    ensures Replies(limit, meter, upstream)[k] ==
      if upstream[k].HttpRequest? && meter.total + |Body(upstream[..k + 1])| > limit then TooLarge
      else Delivered(upstream[k])
    decreases |upstream|
  {
    if k == 0 {
      assert upstream[..1] == [upstream[0]];
      assert Body(upstream[..1]) == Bytes(upstream[0]) + Body([]);
    } else {
      BodyOfPrefix(upstream, k);
      ReplyAt(limit, Meet(limit, meter, upstream[0]).0, upstream[1..], k - 1);
    }
  }

  lemma {:induction false} BodyGrows(upstream: seq<Message>, j: nat, k: nat)
    requires j <= k <= |upstream|
    ensures |Body(upstream[..j])| <= |Body(upstream[..k])|
    decreases j
  {
    if j > 0 {
      BodyGrows(upstream[1..], j - 1, k - 1);
      assert upstream[..j][1..] == upstream[1..][..j - 1];
      assert upstream[..k][1..] == upstream[1..][..k - 1];
    }
  }

  /** The first failure is at the first message that crosses the limit; what came before was
      handed over unchanged, and after it every request message fails as well. */
  lemma FailuresAreFinal(limit: int, upstream: seq<Message>, first: nat, k: nat)
    requires first < |upstream| && k < |upstream|
    requires upstream[first].HttpRequest? && |Body(upstream[..first + 1])| > limit
    requires forall j :: 0 <= j < first && upstream[j].HttpRequest? ==> |Body(upstream[..j + 1])| <= limit
    ensures var r := Replies(limit, Meter(0, []), upstream)[k];
      if k < first then r == Delivered(upstream[k])
      else if upstream[k].HttpRequest? then r == TooLarge
      else r == Delivered(upstream[k])
  {
    ReplyAt(limit, Meter(0, []), upstream, k);
    if first <= k {
      BodyGrows(upstream, first + 1, k + 1);
    }
  }

  /** However often it calls `receive`, the application never sees more bytes than the limit. */
  lemma {:induction false} DeliveredWithinLimit(limit: int, meter: Meter, upstream: seq<Message>)
    ensures |DeliveredBytes(Replies(limit, meter, upstream))| <=
            if meter.total <= limit then limit - meter.total else 0
    decreases |upstream|
  {
    if upstream != [] {
      var (meter', r) := Meet(limit, meter, upstream[0]);
      DeliveredWithinLimit(limit, meter', upstream[1..]);
      assert Replies(limit, meter, upstream)[1..] == Replies(limit, meter', upstream[1..]);
    }
  }

  /** A body in `http.request` messages, all but the last announcing more. */
  predicate WellFormed(upstream: seq<Message>) {
    upstream != [] && forall k :: 0 <= k < |upstream| ==>
      upstream[k].HttpRequest? && (IsLast(upstream[k]) <==> k == |upstream| - 1)
  }

  predicate Accepted(rs: seq<Received>) {
    forall k :: 0 <= k < |rs| ==> rs[k].Delivered?
  }

  /** Chunking does not matter: only the length of the body decides. */
  lemma ChunkingDoesNotMatter(limit: int, upstream: seq<Message>)
    requires WellFormed(upstream)
    ensures Accepted(Replies(limit, Meter(0, []), upstream)) <==> |Body(upstream)| <= limit
  {
    var n := |upstream|;
    assert upstream[..n] == upstream;
    forall k | 0 <= k < n
      ensures Replies(limit, Meter(0, []), upstream)[k].Delivered? <==> |Body(upstream[..k + 1])| <= limit
      ensures |Body(upstream[..k + 1])| <= |Body(upstream)|
    {
      ReplyAt(limit, Meter(0, []), upstream, k);
      BodyGrows(upstream, k + 1, n);
    }
    if |Body(upstream)| > limit {
      assert !Replies(limit, Meter(0, []), upstream)[n - 1].Delivered?;
    }
  }

  lemma {:induction false} BodySnoc(upstream: seq<Message>, k: nat)
    requires k < |upstream|
    ensures Body(upstream[..k + 1]) == Body(upstream[..k]) + Bytes(upstream[k])
    decreases k
  {
    if k == 0 {
      assert upstream[..1] == [upstream[0]];
      assert Body(upstream[..1]) == Bytes(upstream[0]) + Body([]);
    } else {
      BodySnoc(upstream[1..], k - 1);
      BodyOfPrefix(upstream, k);
      assert upstream[..k][1..] == upstream[1..][..k - 1];
    }
  }

  lemma {:induction false} AfterSnoc(limit: int, meter: Meter, upstream: seq<Message>, k: nat)
    requires k < |upstream|
    ensures After(limit, meter, upstream[..k + 1]) == Meet(limit, After(limit, meter, upstream[..k]), upstream[k]).0
    decreases k
  {
    var meter' := Meet(limit, meter, upstream[0]).0;
    assert upstream[..k + 1][1..] == upstream[1..][..k];
    if k == 0 {
      assert After(limit, meter, upstream[..1]) == After(limit, meter', []);
    } else {
      assert upstream[..k][1..] == upstream[1..][..k - 1];
      AfterSnoc(limit, meter', upstream[1..], k - 1);
    }
  }

  /** The sizes of the bodies that end within the limit among the first `n` messages: at each last
      message, all the bytes so far, those of refused messages included. */
  function EndsWithin(limit: int, before: nat, upstream: seq<Message>, n: nat): seq<nat>
    requires n <= |upstream|
  {
    if n == 0 then []
    else
      var total := before + |Body(upstream[..n])|;
      EndsWithin(limit, before, upstream, n - 1) +
      if IsLast(upstream[n - 1]) && total <= limit then [total] else []
  }

  /** What is recorded of any stream, well-formed or not. */
  lemma {:induction false} SizesOfAnyStream(limit: int, meter: Meter, upstream: seq<Message>, n: nat)
    requires n <= |upstream|
    ensures After(limit, meter, upstream[..n]) ==
            Meter(meter.total + |Body(upstream[..n])|,
                  meter.sizes + EndsWithin(limit, meter.total, upstream, n))
    decreases n
  {
    if n == 0 {
      assert After(limit, meter, upstream[..0]) == meter;
    } else {
      SizesOfAnyStream(limit, meter, upstream, n - 1);
      OneMore(limit, meter, upstream, n - 1);
    }
  }

  lemma OneMore(limit: int, meter: Meter, upstream: seq<Message>, k: nat)
    requires k < |upstream|
    requires After(limit, meter, upstream[..k]) ==
             Meter(meter.total + |Body(upstream[..k])|, meter.sizes + EndsWithin(limit, meter.total, upstream, k))
    ensures After(limit, meter, upstream[..k + 1]) ==
            Meter(meter.total + |Body(upstream[..k + 1])|,
                  meter.sizes + EndsWithin(limit, meter.total, upstream, k + 1))
  {
    hide After, Body, Meet, EndsWithin, IsLast, Bytes;
    var m, sizes := upstream[k], EndsWithin(limit, meter.total, upstream, k);
    var total := meter.total + |Body(upstream[..k + 1])|;
    var last := if IsLast(m) && total <= limit then [total] else [];
    AfterSnoc(limit, meter, upstream, k);
    BodySnoc(upstream, k);
    MeetRecords(limit, After(limit, meter, upstream[..k]), m);
    assert EndsWithin(limit, meter.total, upstream, k + 1) == sizes + last by {
      EndsWithinSnoc(limit, meter.total, upstream, k);
    }
    assert meter.sizes + sizes + last == meter.sizes + (sizes + last);
  }

  lemma EndsWithinSnoc(limit: int, before: nat, upstream: seq<Message>, k: nat)
    requires k < |upstream|
    ensures var total := before + |Body(upstream[..k + 1])|;
      EndsWithin(limit, before, upstream, k + 1) ==
      EndsWithin(limit, before, upstream, k) + if IsLast(upstream[k]) && total <= limit then [total] else []
  {
  }

  lemma MeetRecords(limit: int, meter: Meter, m: Message)
    ensures var total := meter.total + |Bytes(m)|;
      Meet(limit, meter, m).0 == Meter(total, meter.sizes + if IsLast(m) && total <= limit then [total] else [])
  {
  }

  /** A body within the limit is recorded once, with its exact size; a larger one never. */
  lemma {:induction false} SizeIsRecordedOnce(limit: int, meter: Meter, upstream: seq<Message>)
    requires WellFormed(upstream)
    ensures var n := meter.total + |Body(upstream)|;
      After(limit, meter, upstream) == Meter(n, if n <= limit then meter.sizes + [n] else meter.sizes)
    decreases |upstream|
  {
    var rest, meter' := upstream[1..], Meet(limit, meter, upstream[0]).0;
    assert |Body(upstream)| == |Bytes(upstream[0])| + |Body(rest)|;
    if rest == [] {
      assert After(limit, meter, upstream) == meter';
    } else {
      assert !IsLast(upstream[0]);
      forall k | 0 <= k < |rest| ensures rest[k] == upstream[k + 1] {}
      SizeIsRecordedOnce(limit, meter', rest);
    }
  }

  // ----- the declared path ----------------------------------------------------------------

  datatype Admission =
    | Forwarded(metered: bool, recorded: Option<int>)
    | BadLength
    | DeclaredTooLarge(declared: int)

  /** `RequestSizeLimitMiddleware.__call__` up to the call of the application. */
  function Admit(limit: int, isHttp: bool, contentLength: Option<string>): Admission {
    if !isHttp then Forwarded(false, None)
    else match contentLength
      case None => Forwarded(true, None)
      case Some(text) =>
        match ParseInt(text)
        case None => BadLength
        case Some(n) => if n > limit then DeclaredTooLarge(n) else Forwarded(false, Some(n))
  }

  // ----- the middleware as a whole ----------------------------------------------------------

  /** Either the request is answered with an error status right away, or the application is called;
      then `received` is what it gets when it reads the stream, and `sizes` what is recorded. */
  datatype Outcome = Rejected(status: int) | Served(received: seq<Received>, sizes: seq<int>)

  function Unmetered(upstream: seq<Message>): seq<Received> {
    seq(|upstream|, i requires 0 <= i < |upstream| => Delivered(upstream[i]))
  }

  function Serve(limit: int, isHttp: bool, contentLength: Option<string>, upstream: seq<Message>): Outcome {
    match Admit(limit, isHttp, contentLength)
    case BadLength => Rejected(400)
    case DeclaredTooLarge(_) => Rejected(413)
    case Forwarded(metered, recorded) =>
      if metered then Served(Replies(limit, Meter(0, []), upstream), After(limit, Meter(0, []), upstream).sizes)
      else Served(Unmetered(upstream), if recorded.Some? then [recorded.value] else [])
  }

  /** `RequestSizeLimitMiddleware.__call__`, for an application that reads the whole stream. */
  method Handle(limit: int, isHttp: bool, contentLength: Option<string>, upstream: seq<Message>)
      returns (outcome: Outcome)
    ensures outcome == Serve(limit, isHttp, contentLength, upstream)
  {
    if !isHttp {
      return Served(Unmetered(upstream), []);
    }
    if contentLength.Some? {
      var declared := ParseInt(contentLength.value);
      if declared.None? {
        return Rejected(400);
      }
      if declared.value > limit {
        return Rejected(413);
      }
      return Served(Unmetered(upstream), [declared.value]);
    }
    var receive := new MeteredReceive(limit);
    var received := receive.ReceiveAll(upstream);
    return Served(received, receive.sizes);
  }

  /** The stream carries these chunks: a chunk to a message, where a message without a body counts
      as an empty one, all but the last announcing more. */
  predicate Carries(upstream: seq<Message>, chunks: seq<seq<bv8>>) {
    upstream != [] && |upstream| == |chunks| &&
    forall k :: 0 <= k < |upstream| ==>
      upstream[k].HttpRequest? &&
      (if upstream[k].body.Some? then upstream[k].body.value == chunks[k] else chunks[k] == []) &&
      (if k < |upstream| - 1 then upstream[k].moreBody == Some(true)
       else upstream[k].moreBody == None || upstream[k].moreBody == Some(false))
  }

  function Joined(chunks: seq<seq<bv8>>): seq<bv8> {
    if chunks == [] then [] else chunks[0] + Joined(chunks[1..])
  }

  /** Every message comes as it is. */
  predicate AllArrive(received: seq<Received>, upstream: seq<Message>) {
    |received| == |upstream| && forall k :: 0 <= k < |upstream| ==> received[k] == Delivered(upstream[k])
  }

  lemma {:induction false} BodyIsJoined(upstream: seq<Message>, chunks: seq<seq<bv8>>)
    requires |upstream| == |chunks|
    requires forall k :: 0 <= k < |upstream| ==> Payload(upstream[k]) == chunks[k]
    ensures Body(upstream) == Joined(chunks)
    decreases |upstream|
  {
    if upstream != [] {
      BodyIsJoined(upstream[1..], chunks[1..]);
    }
  }

  lemma CarriedBody(upstream: seq<Message>, chunks: seq<seq<bv8>>)
    requires Carries(upstream, chunks)
    ensures WellFormed(upstream) && Body(upstream) == Joined(chunks)
  {
    forall k | 0 <= k < |upstream| ensures Payload(upstream[k]) == chunks[k] {}
    BodyIsJoined(upstream, chunks);
  }

  lemma AcceptedArrives(limit: int, upstream: seq<Message>)
    requires Accepted(Replies(limit, Meter(0, []), upstream))
    ensures AllArrive(Replies(limit, Meter(0, []), upstream), upstream)
  {
    forall k | 0 <= k < |upstream| ensures Replies(limit, Meter(0, []), upstream)[k] == Delivered(upstream[k]) {
      ReplyAt(limit, Meter(0, []), upstream, k);
    }
  }

  /** A request whose length is absent or honest: if its body is within the limit, however it is
      split, all of it arrives and its size is recorded once; if not, it is rejected or reading it
      fails, and no size is recorded. */
  lemma WholeBodyArrivesIff(limit: int, contentLength: Option<string>, upstream: seq<Message>, chunks: seq<seq<bv8>>)
    requires Carries(upstream, chunks)
    requires contentLength.None? || Denotes(contentLength.value, |Joined(chunks)|)
    ensures var outcome := Serve(limit, true, contentLength, upstream);
      if |Joined(chunks)| <= limit then
        outcome.Served? && AllArrive(outcome.received, upstream) && outcome.sizes == [|Joined(chunks)|]
      else if contentLength.Some? then outcome == Rejected(413)
      else outcome.Served? && TooLarge in outcome.received && outcome.sizes == []
  {
    CarriedBody(upstream, chunks);
    if contentLength.Some? {
      ParseIntIff(contentLength.value, |Joined(chunks)|);
    } else {
      ChunkingDoesNotMatter(limit, upstream);
      SizeIsRecordedOnce(limit, Meter(0, []), upstream);
      if |Joined(chunks)| <= limit {
        AcceptedArrives(limit, upstream);
      } else {
        var rs := Replies(limit, Meter(0, []), upstream);
        var k :| 0 <= k < |rs| && !rs[k].Delivered?;
        assert rs[k] == TooLarge;
      }
    }
  }

  /** The application never sees more bytes than the limit allows, whatever the stream, unless a
      declared length understates it. */
  lemma LimitHolds(limit: int, contentLength: Option<string>, upstream: seq<Message>)
    requires contentLength.Some? ==>
      forall n :: Denotes(contentLength.value, n) ==> |DeliveredBytes(Unmetered(upstream))| <= n
    ensures var outcome := Serve(limit, true, contentLength, upstream);
      outcome.Served? ==> |DeliveredBytes(outcome.received)| <= if limit < 0 then 0 else limit
  {
    match contentLength
    case None => DeliveredWithinLimit(limit, Meter(0, []), upstream);
    case Some(text) =>
      if ParseInt(text).Some? { ParseIntIff(text, ParseInt(text).value); }
  }

  /** A length that is no integer never reaches the application, nor does one above the limit; these
      are the two cases of a rejection. */
  lemma RejectedIff(limit: int, text: string, upstream: seq<Message>)
    ensures var outcome := Serve(limit, true, Some(text), upstream);
      (outcome == Rejected(400) <==> forall n :: !Denotes(text, n)) &&
      (outcome == Rejected(413) <==> exists n :: Denotes(text, n) && n > limit) &&
      (outcome.Rejected? ==> outcome.status == 400 || outcome.status == 413)
  {
    forall n ensures ParseInt(text) == Some(n) <==> Denotes(text, n) { ParseIntIff(text, n); }
    if ParseInt(text).Some? {
      assert Denotes(text, ParseInt(text).value);
    }
  }

  /** What is not an HTTP request passes through. */
  lemma OtherScopesPass(limit: int, contentLength: Option<string>, upstream: seq<Message>)
    ensures var outcome := Serve(limit, false, contentLength, upstream);
      outcome.Served? && AllArrive(outcome.received, upstream) && outcome.sizes == []
  {
  }

  /** The declared and the metered path agree on every honest request: on the verdict, on what the
      application reads, and on the recorded size. */
  lemma PathsAgree(limit: int, text: string, upstream: seq<Message>, chunks: seq<seq<bv8>>)
    requires Carries(upstream, chunks) && Denotes(text, |Joined(chunks)|)
    ensures var declared, metered := Serve(limit, true, Some(text), upstream), Serve(limit, true, None, upstream);
      metered.Served? &&
      if |Joined(chunks)| <= limit then declared == metered
      else declared == Rejected(413) && TooLarge in metered.received
  {
    WholeBodyArrivesIff(limit, Some(text), upstream, chunks);
    WholeBodyArrivesIff(limit, None, upstream, chunks);
    if |Joined(chunks)| <= limit {
      assert Serve(limit, true, Some(text), upstream).received == Serve(limit, true, None, upstream).received;
    }
  }
}
