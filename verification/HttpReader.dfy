/** Reading one request from a connection that hands over its bytes in pieces of any size. */
module HttpReader {
  import opened Foundations
  import opened HttpHead

  const MAX_HEADER_BYTES: nat := 8 * 1024
  const BUFFER_BYTES: nat := 4096

  datatype ParsedRequest = ParsedRequest(verb: string, path: string, headers: map<Slot, string>, body: Bytes)

  // ---- The end of the header section ----

  predicate EndsAt(bytes: Bytes, p: int) {
    0 <= p <= |bytes| - 4 && bytes[p..p + 4] == [13, 10, 13, 10]
  }

  function HeaderEndFrom(bytes: Bytes, i: nat): Option<nat>
    decreases |bytes| - i
  {
    if i + 4 > |bytes| then None
    else if EndsAt(bytes, i) then Some(i)
    else HeaderEndFrom(bytes, i + 1)
  }

  function FindHeaderEnd(bytes: Bytes): Option<nat> { HeaderEndFrom(bytes, 0) }

  ghost predicate IsFirstEnd(bytes: Bytes, i: nat, r: Option<nat>) {
    (r.Some? ==> i <= r.value && EndsAt(bytes, r.value)) &&
    forall j | i <= j < (if r.Some? then r.value else |bytes|) :: !EndsAt(bytes, j)
  }

  lemma {:induction false} HeaderEndIsFirst(bytes: Bytes, i: nat)
    ensures IsFirstEnd(bytes, i, HeaderEndFrom(bytes, i))
    decreases |bytes| - i
  {
    if i + 4 <= |bytes| && !EndsAt(bytes, i) { HeaderEndIsFirst(bytes, i + 1); }
  }

  /** More bytes never move the end already found, and a prefix shows it as soon as it holds all four bytes. */
  lemma HeaderEndOfPrefix(whole: Bytes, n: nat)
    requires n <= |whole|
    ensures FindHeaderEnd(whole[..n]) ==
            (match FindHeaderEnd(whole) case None => None case Some(p) => if p + 4 <= n then Some(p) else None)
  {
    var part := whole[..n];
    HeaderEndIsFirst(whole, 0);
    HeaderEndIsFirst(part, 0);
    forall j: int ensures EndsAt(part, j) <==> EndsAt(whole, j) && j + 4 <= n {
      if 0 <= j && j + 4 <= n { assert part[j..j + 4] == whole[j..j + 4]; }
    }
    hide EndsAt;
  }

  // ---- The answer for a stream that is all there at once ----

  function OneShot(cs: Charset, whole: Bytes): Result<ParsedRequest, ReadError> {
    match FindHeaderEnd(whole)
    case None => Err(Malformed)
    case Some(p) =>
      if p > MAX_HEADER_BYTES || p + 4 > |whole| then Err(Malformed)
      else
        match ParseHead(cs, whole[..p])
        case Err(e) => Err(e)
        case Ok(head) =>
          var start := p + 4;
          if |whole| < start + head.contentLength then Err(Malformed)
          else Ok(ParsedRequest(head.verb, head.path, head.headers, whole[start..start + head.contentLength]))
  }

  // ---- Pieces ----

  /** What one read returns: at least one byte while any is left, at most what was offered and asked for. */
  function Served(schedule: seq<nat>, available: nat, limit: nat): (n: nat)
    ensures n <= available && n <= limit && (available > 0 && limit > 0 ==> n > 0)
  {
    var offered := if schedule == [] then limit else if schedule[0] == 0 then 1 else schedule[0];
    var most := if offered < limit then offered else limit;
    if most < available then most else available
  }

  function Later(schedule: seq<nat>): seq<nat> { if schedule == [] then [] else schedule[1..] }

  /** The end of the stream is an empty read; `schedule` fixes how much each read is offered. */
  class Stream {
    var pending: Bytes
    var schedule: seq<nat>

    constructor (whole: Bytes, offers: seq<nat>)
      ensures pending == whole && schedule == offers
    {
      pending, schedule := whole, offers;
    }

    method Read(limit: nat) returns (chunk: Bytes)
      modifies this
      ensures schedule == Later(old(schedule))
      ensures |chunk| == Served(old(schedule), |old(pending)|, limit)
      ensures chunk + pending == old(pending)
    {
      var n := Served(schedule, |pending|, limit);
      chunk := pending[..n];
      pending, schedule := pending[n..], Later(schedule);
    }
  }

  /** How many bytes are held when the search for the header end stops. */
  function Held(whole: Bytes, schedule: seq<nat>, got: nat): (n: nat)
    requires got <= |whole|
    ensures got <= n <= |whole|
    decreases |whole| - got
  {
    if FindHeaderEnd(whole[..got]).Some? || got > MAX_HEADER_BYTES || got == |whole| then got
    else Held(whole, Later(schedule), got + Served(schedule, |whole| - got, BUFFER_BYTES))
  }

  /** The reader holds more than the limit before it has seen the header end. */
  predicate GivesUp(whole: Bytes, schedule: seq<nat>) {
    var n := Held(whole, schedule, 0);
    n > MAX_HEADER_BYTES && FindHeaderEnd(whole[..n]).None?
  }

  function Answer(cs: Charset, whole: Bytes, schedule: seq<nat>): Result<ParsedRequest, ReadError> {
    if GivesUp(whole, schedule) then Err(Malformed) else OneShot(cs, whole)
  }

  // ---- The reader ----

  method ReadHeader(stream: Stream) returns (bytes: Bytes, end: Option<nat>)
    modifies stream
    ensures bytes + stream.pending == old(stream.pending)
    ensures |bytes| == Held(old(stream.pending), old(stream.schedule), 0) && |bytes| <= MAX_HEADER_BYTES + BUFFER_BYTES
    ensures end == (match FindHeaderEnd(bytes) case None => None
                    case Some(p) => if p > MAX_HEADER_BYTES then None else Some(p))
    ensures FindHeaderEnd(bytes).None? ==> |bytes| > MAX_HEADER_BYTES || stream.pending == []
  {
    ghost var whole, offers := stream.pending, stream.schedule;
    bytes := [];
    while true
      invariant bytes + stream.pending == whole
      invariant Held(whole, stream.schedule, |bytes|) == Held(whole, offers, 0)
      invariant |bytes| <= MAX_HEADER_BYTES + BUFFER_BYTES
      decreases |stream.pending|
    {
      assert whole[..|bytes|] == bytes;
      var position := FindHeaderEnd(bytes);
      if position.Some? {
        if position.value > MAX_HEADER_BYTES { return bytes, None; }
        return bytes, position;
      }
      if |bytes| > MAX_HEADER_BYTES { return bytes, None; }
      var chunk := stream.Read(BUFFER_BYTES);
      if chunk == [] { return bytes, None; }
      bytes := bytes + chunk;
    }
  }

  method ReadBody(stream: Stream, already: Bytes, start: nat, length: nat) returns (bytes: Bytes)
    requires start <= |already|
    modifies stream
    ensures already <= bytes && bytes + stream.pending == already + old(stream.pending)
    ensures |bytes| <= |already| || |bytes| <= start + length
    ensures |bytes| >= start + length || stream.pending == []
  {
    bytes := already;
    while |bytes| - start < length
      invariant already <= bytes && bytes + stream.pending == already + old(stream.pending)
      invariant |bytes| <= |already| || |bytes| <= start + length
      decreases start + length - |bytes|
    {
      var remaining := length - (|bytes| - start);
      var chunk := stream.Read(if remaining < BUFFER_BYTES then remaining else BUFFER_BYTES);
      if chunk == [] { return; }
      bytes := bytes + chunk;
    }
  }

  lemma AnswerWithoutHeader(cs: Charset, whole: Bytes, schedule: seq<nat>, n: nat)
    requires n == Held(whole, schedule, 0)
    requires FindHeaderEnd(whole[..n]).None? ==> n > MAX_HEADER_BYTES || n == |whole|
    requires FindHeaderEnd(whole[..n]).Some? ==> FindHeaderEnd(whole[..n]).value > MAX_HEADER_BYTES
    ensures Answer(cs, whole, schedule) == Err(Malformed)
  {
    HeaderEndOfPrefix(whole, n);
    assert n == |whole| ==> whole[..n] == whole;
  }

  lemma AnswerWithHeader(cs: Charset, whole: Bytes, schedule: seq<nat>, n: nat)
    requires n == Held(whole, schedule, 0) && FindHeaderEnd(whole[..n]).Some?
    ensures Answer(cs, whole, schedule) == OneShot(cs, whole)
    ensures FindHeaderEnd(whole) == FindHeaderEnd(whole[..n]) && FindHeaderEnd(whole).value + 4 <= n
  {
    HeaderEndOfPrefix(whole, n);
    HeaderEndIsFirst(whole[..n], 0);
  }

  method ReadRequest(stream: Stream, cs: Charset) returns (r: Result<ParsedRequest, ReadError>)
    modifies stream
    ensures r == Answer(cs, old(stream.pending), old(stream.schedule))
    ensures exists n | 0 <= n <= |old(stream.pending)| :: stream.pending == old(stream.pending)[n..]
    ensures |old(stream.pending)| - |stream.pending| <= MAX_HEADER_BYTES + 4 + MAX_BODY_BYTES
  {
    hide ParseHead, FindHeaderEnd, Held, Answer;
    ghost var whole, offers := stream.pending, stream.schedule;
    var bytes, end := ReadHeader(stream);
    assert whole[..|bytes|] == bytes && whole[|bytes|..] == stream.pending;
    if end.None? {
      AnswerWithoutHeader(cs, whole, offers, |bytes|);
      return Err(Malformed);
    }
    AnswerWithHeader(cs, whole, offers, |bytes|);
    var p := end.value;
    assert bytes[..p] == whole[..p];
    var head := ParseHead(cs, bytes[..p]);
    if head.Err? { return Err(head.error); }
    BodyFits(cs, bytes[..p]);
    var start, length := p + 4, head.value.contentLength;
    bytes := ReadBody(stream, bytes, start, length);
    assert whole[|bytes|..] == stream.pending;
    if |bytes| < start + length { return Err(Malformed); }
    assert bytes[start..start + length] == whole[start..start + length];
    r := Ok(ParsedRequest(head.value.verb, head.value.path, head.value.headers, bytes[start..start + length]));
  }

  // ---- When the pieces matter ----

  predicate Borderline(whole: Bytes) {
    FindHeaderEnd(whole).Some? && MAX_HEADER_BYTES - 2 <= FindHeaderEnd(whole).value <= MAX_HEADER_BYTES
  }

  /** Unless the header end is at one of three offsets, the pieces make no difference. */
  lemma SplitIndependent(cs: Charset, whole: Bytes, schedule: seq<nat>)
    requires !Borderline(whole)
    ensures Answer(cs, whole, schedule) == OneShot(cs, whole)
  {
    HeaderEndOfPrefix(whole, Held(whole, schedule, 0));
  }

  /** At those three offsets one way of splitting gives the one-shot answer and another a refusal. */
  lemma BorderlineDependsOnPieces(cs: Charset, whole: Bytes)
    requires Borderline(whole)
    ensures Answer(cs, whole, []) == OneShot(cs, whole)
    ensures Answer(cs, whole, [BUFFER_BYTES, BUFFER_BYTES, 1]) == Err(Malformed)
  {
    HeaderEndIsFirst(whole, 0);
    forall n: nat | n <= |whole| { HeaderEndOfPrefix(whole, n); }
    Unfolds(whole, []);
    Unfolds(whole, [BUFFER_BYTES, BUFFER_BYTES, 1]);
  }

  /** So the pieces can decide the answer exactly there, and only for a stream that is not refused anyway. */
  lemma PiecesMatterExactly(cs: Charset, whole: Bytes)
    ensures (exists a, b :: Answer(cs, whole, a) != Answer(cs, whole, b)) <==>
            Borderline(whole) && OneShot(cs, whole) != Err(Malformed)
  {
    if Borderline(whole) {
      BorderlineDependsOnPieces(cs, whole);
      assert Answer(cs, whole, []) == OneShot(cs, whole);
    } else {
      forall schedule ensures Answer(cs, whole, schedule) == OneShot(cs, whole) { SplitIndependent(cs, whole, schedule); }
    }
    hide OneShot, GivesUp, Borderline;
  }

  lemma Unfolds(whole: Bytes, schedule: seq<nat>)
    requires |whole| > MAX_HEADER_BYTES
    requires Served(schedule, |whole|, BUFFER_BYTES) == BUFFER_BYTES
    requires Served(Later(schedule), |whole| - BUFFER_BYTES, BUFFER_BYTES) == BUFFER_BYTES
    requires forall n: nat | n <= MAX_HEADER_BYTES :: FindHeaderEnd(whole[..n]).None?
    ensures Held(whole, schedule, 0) == MAX_HEADER_BYTES +
            Served(Later(Later(schedule)), |whole| - MAX_HEADER_BYTES, BUFFER_BYTES)
  {
    assert Held(whole, schedule, 0) == Held(whole, Later(schedule), BUFFER_BYTES);
    assert Held(whole, Later(schedule), BUFFER_BYTES) == Held(whole, Later(Later(schedule)), MAX_HEADER_BYTES);
  }
}
