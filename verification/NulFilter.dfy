/**
 The NUL-byte filter for JSON bodies (app/core/null_byte_middleware.py): buffer the
 request, scan it, replay it once. The scan is compared with a decoder for JSON
 strings (section 7 of RFC 8259).
 */
module NulFilter {
  import opened Common

  type Byte = b: int | 0 <= b < 256

  const BACKSLASH: Byte := 92
  const RAW_NUL: seq<Byte> := [0]
  const ESCAPED_LOWER: seq<Byte> := [92, 117, 48, 48, 48, 48]  // \u0000
  const ESCAPED_UPPER: seq<Byte> := [92, 85, 48, 48, 48, 48]   // \U0000

  /** An ASGI receive message. */
  datatype Message = Request(body: seq<Byte>, more: bool) | Disconnect | Other

  datatype Outcome = PassedThrough | Rejected | Replayed(body: seq<Byte>)

  predicate OccursAt(body: seq<Byte>, needle: seq<Byte>, i: int) {
    0 <= i <= |body| - |needle| && body[i..i + |needle|] == needle
  }

  predicate Contains(body: seq<Byte>, needle: seq<Byte>) {
    exists i :: 0 <= i <= |body| - |needle| && OccursAt(body, needle, i)
  }

  predicate Tainted(body: seq<Byte>) {
    Contains(body, RAW_NUL) || Contains(body, ESCAPED_LOWER) || Contains(body, ESCAPED_UPPER)
  }

  /** Six bytes at `i` that spell a backslash, the letter u in either case, and four zeros. */
  predicate SpellsNul(body: seq<Byte>, i: int) {
    && 0 <= i && i + 6 <= |body|
    && body[i] == '\\' as int && (body[i + 1] == 'u' as int || body[i + 1] == 'U' as int)
    && body[i + 2] == body[i + 3] == body[i + 4] == body[i + 5] == '0' as int
  }

  /** Refused are exactly the bodies with a zero byte or with the escape spelled out somewhere. */
  lemma TaintedIff(body: seq<Byte>)
    ensures Tainted(body) <==> 0 in body || exists i :: SpellsNul(body, i)
  {
    forall i | 0 <= i && i + 6 <= |body|
      ensures SpellsNul(body, i) <==> OccursAt(body, ESCAPED_LOWER, i) || OccursAt(body, ESCAPED_UPPER, i)
    {
      assert body[i..i + 6] == [body[i], body[i + 1], body[i + 2], body[i + 3], body[i + 4], body[i + 5]];
    }
    if 0 in body {
      var i :| 0 <= i < |body| && body[i] == 0;
      assert body[i..i + 1] == RAW_NUL;
      assert OccursAt(body, RAW_NUL, i);
    }
    if Contains(body, RAW_NUL) {
      var i :| 0 <= i <= |body| - 1 && OccursAt(body, RAW_NUL, i);
      assert body[i] == body[i..i + 1][0];
    }
    if exists i :: SpellsNul(body, i) {
      var i :| SpellsNul(body, i);
      assert OccursAt(body, ESCAPED_LOWER, i) || OccursAt(body, ESCAPED_UPPER, i);
    }
  }

  // ---------------------------------------------------------------------- buffering

  predicate EndsBody(m: Message) {
    m.Disconnect? || (m.Request? && !m.more)
  }

  /** The body as the messages deliver it, up to the last chunk or a disconnect. */
  function Delivered(messages: seq<Message>): seq<Byte> {
    if messages == [] then []
    else
      match messages[0]
      case Request(body, more) => body + if more then Delivered(messages[1..]) else []
      case Disconnect => []
      case Other => Delivered(messages[1..])
  }

  /** One request; the receive loop waits until some message ends the body. */
  method Handle(inspected: bool, messages: seq<Message>) returns (outcome: Outcome)
    requires exists i :: 0 <= i < |messages| && EndsBody(messages[i])
    ensures !inspected ==> outcome == PassedThrough
    ensures inspected ==>
      outcome == if Tainted(Delivered(messages)) then Rejected else Replayed(Delivered(messages))
  {
    if !inspected {
      return PassedThrough;
    }
    var body: seq<Byte> := [];
    var more := true;
    var next := 0;
    while more
      invariant 0 <= next <= |messages|
      invariant more ==> exists i :: next <= i < |messages| && EndsBody(messages[i])
      invariant body + (if more then Delivered(messages[next..]) else []) == Delivered(messages)
      decreases |messages| - next
    {
      var message := messages[next];
      assert messages[next..][1..] == messages[next + 1..];
      match message {
        case Request(chunk, moreBody) =>
          body := body + chunk;
          more := moreBody;
        case Disconnect =>
          more := false;
        case Other =>
      }
      next := next + 1;
    }
    assert body == Delivered(messages);
    if Tainted(body) {
      return Rejected;
    }
    return Replayed(body);
  }

  /** The receive callable handed to the application. */
  class Replay {
    const body: seq<Byte>
    var replayed: bool

    constructor (body: seq<Byte>)
      ensures this.body == body && !replayed
    {
      this.body, this.replayed := body, false;
    }

    method Receive() returns (message: Message)
      modifies this
      ensures replayed
      ensures message == if old(replayed) then Disconnect else Request(body, false)
    {
      if !replayed {
        replayed := true;
        return Request(body, false);
      }
      return Disconnect;
    }

    /** However often the application asks, it gets the body once and then only disconnects. */
    method ReceiveAll(n: nat) returns (messages: seq<Message>)
      requires !replayed
      modifies this
      ensures |messages| == n
      ensures forall i :: 0 <= i < n ==> messages[i] == if i == 0 then Request(body, false) else Disconnect
    {
      messages := [];
      for k := 0 to n
        invariant |messages| == k && (replayed <==> k > 0)
        invariant forall i :: 0 <= i < k ==> messages[i] == if i == 0 then Request(body, false) else Disconnect
      {
        var message := Receive();
        messages := messages + [message];
      }
    }
  }

  // ------------------------------------------------------------------ chunk boundaries

  function Concat(chunks: seq<seq<Byte>>): seq<Byte> {
    if chunks == [] then [] else chunks[0] + Concat(chunks[1..])
  }

  /** A server delivering a body in the given chunks. */
  function InChunks(chunks: seq<seq<Byte>>): seq<Message> {
    if chunks == [] then []
    else [Request(chunks[0], |chunks| > 1)] + InChunks(chunks[1..])
  }

  /** The delivered body is the concatenation: where it was cut has no influence on the scan. */
  lemma {:induction false} ChunkingIsInvisible(chunks: seq<seq<Byte>>)
    requires chunks != []
    ensures Delivered(InChunks(chunks)) == Concat(chunks)
    ensures exists i :: 0 <= i < |InChunks(chunks)| && EndsBody(InChunks(chunks)[i])
  {
    if |chunks| == 1 {
      assert Concat(chunks[1..]) == [];
      assert EndsBody(InChunks(chunks)[0]);
    } else {
      ChunkingIsInvisible(chunks[1..]);
      assert InChunks(chunks)[1..] == InChunks(chunks[1..]);
      var i :| 0 <= i < |InChunks(chunks[1..])| && EndsBody(InChunks(chunks[1..])[i]);
      assert InChunks(chunks)[i + 1] == InChunks(chunks[1..])[i];
    }
  }

  /** The bodies of the request messages, in order. */
  function Bodies(messages: seq<Message>): seq<Byte> {
    if messages == [] then []
    else Bodies(messages[..|messages| - 1])
         + if messages[|messages| - 1].Request? then messages[|messages| - 1].body else []
  }

  lemma {:induction false} BodiesFromTheFront(messages: seq<Message>)
    requires messages != []
    ensures Bodies(messages) == (if messages[0].Request? then messages[0].body else []) + Bodies(messages[1..])
  {
    if |messages| == 1 {
      assert messages[..0] == [] && messages[1..] == [];
    } else {
      var init := messages[..|messages| - 1];
      BodiesFromTheFront(init);
      assert init[1..] == messages[1..][..|messages| - 2];
    }
  }

  /** Delivered is every request body up to the message that ends it: a last chunk or a disconnect. */
  lemma {:induction false} DeliveredUpToTheEnd(messages: seq<Message>, n: nat)
    requires n < |messages| && EndsBody(messages[n]) && forall i :: 0 <= i < n ==> !EndsBody(messages[i])
    ensures Delivered(messages) == Bodies(messages[..n + 1])
  {
    BodiesFromTheFront(messages[..n + 1]);
    if n == 0 {
      assert messages[..1][1..] == [];
    } else {
      DeliveredUpToTheEnd(messages[1..], n - 1);
      assert messages[..n + 1][1..] == messages[1..][..n];
    }
  }

  // ------------------------------------------------------------- decoding JSON strings

  function HexValue(b: Byte): Option<int> {
    if 48 <= b <= 57 then Some(b - 48)
    else if 97 <= b <= 102 then Some(b - 87)
    else if 65 <= b <= 70 then Some(b - 55)
    else None
  }

  function CodeUnit(digits: seq<Byte>): Option<int>
    requires |digits| == 4
  {
    match (HexValue(digits[0]), HexValue(digits[1]), HexValue(digits[2]), HexValue(digits[3]))
    case (Some(a), Some(b), Some(c), Some(d)) => Some(4096 * a + 256 * b + 16 * c + d)
    case _ => None
  }

  function SimpleEscape(b: Byte): Option<int> {
    if b == 34 || b == 92 || b == 47 then Some(b)  // quotation mark, reverse solidus, solidus
    else if b == 98 then Some(8)
    else if b == 102 then Some(12)
    else if b == 110 then Some(10)
    else if b == 114 then Some(13)
    else if b == 116 then Some(9)
    else None
  }

  function Cons(unit: int, rest: Option<seq<int>>): Option<seq<int>> {
    match rest
    case None => None
    case Some(units) => Some([unit] + units)
  }

  /** Code units of the text between the quotes, from position `k`; unescaped bytes stand for themselves. */
  function DecodeFrom(s: seq<Byte>, k: nat): Option<seq<int>>
    requires k <= |s|
    decreases |s| - k
  {
    if k == |s| then Some([])
    else if s[k] == BACKSLASH then
      if k + 1 == |s| then None
      else if s[k + 1] == 117 then
        if k + 6 > |s| then None
        else
          match CodeUnit(s[k + 2..k + 6])
          case None => None
          case Some(unit) => Cons(unit, DecodeFrom(s, k + 6))
      else
        match SimpleEscape(s[k + 1])
        case None => None
        case Some(unit) => Cons(unit, DecodeFrom(s, k + 2))
    else if s[k] == 34 || s[k] < 32 then None
    else Cons(s[k], DecodeFrom(s, k + 1))
  }

  function Decode(s: seq<Byte>): Option<seq<int>> {
    DecodeFrom(s, 0)
  }

  /** Number of consecutive backslashes that end just before position `i`. */
  function BackslashesBefore(s: seq<Byte>, i: nat): nat
    requires i <= |s|
  {
    if i == 0 || s[i - 1] != BACKSLASH then 0 else 1 + BackslashesBefore(s, i - 1)
  }

  /** The six bytes at `i` really are an escape: no odd run of backslashes swallows theirs. */
  predicate LiveNulEscape(s: seq<Byte>, i: int) {
    OccursAt(s, ESCAPED_LOWER, i) && BackslashesBefore(s, i) % 2 == 0
  }

  lemma ZeroUnit(digits: seq<Byte>)
    requires |digits| == 4
    ensures CodeUnit(digits) == Some(0) <==> digits == [48, 48, 48, 48]
  {
  }

  lemma OccurrenceStarts(s: seq<Byte>, i: int)
    ensures OccursAt(s, ESCAPED_LOWER, i) ==> s[i] == BACKSLASH && s[i + 1] == 117
  {
  }

  // No live escape starts inside the token that begins at `k`.
  lemma LiveOnlyAtTokens(s: seq<Byte>, k: nat, next: nat, i: int)
    requires k < next <= |s| && BackslashesBefore(s, k) % 2 == 0
    requires if s[k] != BACKSLASH then next == k + 1
             else if k + 1 < |s| && s[k + 1] == 117 then next == k + 6 && CodeUnit(s[k + 2..k + 6]).Some?
             else next == k + 2
    requires k < i < next
    ensures !LiveNulEscape(s, i)
  {
    OccurrenceStarts(s, i);
    if i == k + 1 {
      assert s[i] == BACKSLASH ==> BackslashesBefore(s, i) == 1 + BackslashesBefore(s, k);
    } else {
      assert s[i] == s[k + 2..k + 6][i - k - 2];
    }
  }

  lemma TokenBoundary(s: seq<Byte>, k: nat, next: nat)
    requires k < next <= |s| && BackslashesBefore(s, k) % 2 == 0
    requires if s[k] != BACKSLASH then next == k + 1
             else if k + 1 < |s| && s[k + 1] == 117 then next == k + 6 && CodeUnit(s[k + 2..k + 6]).Some?
             else next == k + 2
    ensures BackslashesBefore(s, next) % 2 == 0
  {
  }

  ghost predicate LiveFrom(s: seq<Byte>, k: nat) {
    exists i :: k <= i && LiveNulEscape(s, i)
  }

  lemma {:induction false} LiveFromNext(s: seq<Byte>, k: nat, next: nat)
    requires k < next <= |s| && BackslashesBefore(s, k) % 2 == 0
    requires if s[k] != BACKSLASH then next == k + 1
             else if k + 1 < |s| && s[k + 1] == 117 then next == k + 6 && CodeUnit(s[k + 2..k + 6]).Some?
             else next == k + 2
    ensures LiveFrom(s, k) <==> LiveNulEscape(s, k) || LiveFrom(s, next)
  {
    if LiveFrom(s, k) && !LiveNulEscape(s, k) {
      var i :| k <= i && LiveNulEscape(s, i);
      if i < next {
        LiveOnlyAtTokens(s, k, next, i);
      }
    }
  }

  lemma {:induction false} NulIsALiveEscape(s: seq<Byte>, k: nat)
    requires k <= |s| && BackslashesBefore(s, k) % 2 == 0 && DecodeFrom(s, k).Some?
    ensures 0 in DecodeFrom(s, k).value <==> LiveFrom(s, k)
    decreases |s| - k
  {
    if k == |s| {
    } else if s[k] != BACKSLASH {
      TokenBoundary(s, k, k + 1);
      NulIsALiveEscape(s, k + 1);
      LiveFromNext(s, k, k + 1);
    } else if s[k + 1] == 117 {
      TokenBoundary(s, k, k + 6);
      NulIsALiveEscape(s, k + 6);
      LiveFromNext(s, k, k + 6);
      ZeroUnit(s[k + 2..k + 6]);
      assert s[k..k + 6] == [s[k], s[k + 1]] + s[k + 2..k + 6];
    } else {
      TokenBoundary(s, k, k + 2);
      NulIsALiveEscape(s, k + 2);
      LiveFromNext(s, k, k + 2);
      OccurrenceStarts(s, k);
    }
  }

  // ---------------------------------------------------------------------- main results

  /** A decoded string holds U+0000 exactly when some escape of it is preceded by an even run of backslashes. */
  lemma DecodedNulIffLiveEscape(s: seq<Byte>)
    requires Decode(s).Some?
    ensures 0 in Decode(s).value <==> exists i :: LiveNulEscape(s, i)
  {
    NulIsALiveEscape(s, 0);
    if exists i :: LiveNulEscape(s, i) {
      var i :| LiveNulEscape(s, i);
      assert LiveFrom(s, 0);
    }
  }

  lemma OccursInSlice(body: seq<Byte>, from: nat, to: nat, needle: seq<Byte>, i: int)
    requires from <= to <= |body| && OccursAt(body[from..to], needle, i)
    ensures OccursAt(body, needle, from + i)
  {
    var s, at := body[from..to], from + i;
    forall j | 0 <= j < |needle| ensures body[at..at + |needle|][j] == needle[j] {
      assert s[i..i + |needle|][j] == s[i + j] == body[at + j];
    }
  }

  /** Soundness: no string literal anywhere in an accepted body decodes to a text with U+0000. */
  lemma AcceptedBodiesDecodeClean(body: seq<Byte>, from: nat, to: nat)
    requires !Tainted(body) && from <= to <= |body|
    requires Decode(body[from..to]).Some?
    ensures 0 !in Decode(body[from..to]).value
  {
    var s := body[from..to];
    DecodedNulIffLiveEscape(s);
    if 0 in Decode(s).value {
      var i :| LiveNulEscape(s, i);
      OccursInSlice(body, from, to, ESCAPED_LOWER, i);
    }
  }

  /** The filter refuses a decodable, NUL-free string exactly when it contains the pattern only in dead positions. */
  lemma NeedlessRefusals(s: seq<Byte>)
    requires Decode(s).Some? && Tainted(s)
    ensures 0 !in Decode(s).value <==> forall i :: OccursAt(s, ESCAPED_LOWER, i) ==> BackslashesBefore(s, i) % 2 == 1
  {
    DecodedNulIffLiveEscape(s);
    if 0 !in Decode(s).value {
      forall i | OccursAt(s, ESCAPED_LOWER, i) ensures BackslashesBefore(s, i) % 2 == 1 {
        assert !LiveNulEscape(s, i);
      }
    }
  }

  /** ... which happens: an escaped backslash followed by the letters u0000. */
  lemma EscapedBackslashIsRefused(s: seq<Byte>)
    requires s == [92, 92, 117, 48, 48, 48, 48]
    ensures Decode(s) == Some([92, 117, 48, 48, 48, 48]) && Tainted(s)
  {
    assert OccursAt(s, ESCAPED_LOWER, 1);
    PlainTail(s, 6);
    PlainTail(s, 5);
    PlainTail(s, 4);
    PlainTail(s, 3);
    PlainTail(s, 2);
    assert [92] + s[2..] == [92, 117, 48, 48, 48, 48];
  }

  lemma PlainTail(s: seq<Byte>, k: nat)
    requires k < |s| && s[k] != BACKSLASH && s[k] != 34 && s[k] >= 32
    requires k + 1 < |s| ==> DecodeFrom(s, k + 1) == Some(s[k + 1..])
    ensures DecodeFrom(s, k) == Some(s[k..])
  {
    assert s[k..] == [s[k]] + s[k + 1..];
  }
}
