/**
 A peer that goes away in the middle: which end-of-input error the parser reports when a stream of encoded values is
 cut after any number of bytes.
 */
module RespCuts {
  import opened Bytes
  import opened Decimal
  import opened Resp
  import opened RespProperties

  /** Where in the encoding a cut falls: where a value would start, strictly inside a bulk payload, or elsewhere. */
  datatype Place = ValueStart | Payload | Elsewhere

  function PlaceIn(v: Value, k: nat): Place
    requires k < |Encode(v)|
    decreases v, 0
  {
    if k == 0 then ValueStart
    else
      match v
      case Array(items) =>
        var header := |Line(TAG_ARRAY, FormatInt(|items|))|;
        if k < header then Elsewhere else PlaceInAll(items, k - header)
      case BulkString(b) =>
        var header := |Line(TAG_BULK, FormatInt(|b|))|;
        if header < k < header + |b| then Payload else Elsewhere
      case _ => Elsewhere
  }

  function PlaceInAll(vs: seq<Value>, k: nat): Place
    requires k <= |EncodeAll(vs)|
    decreases vs, 1
  {
    if vs == [] then ValueStart
    else
      var first := |Encode(vs[0])|;
      if k < first then PlaceIn(vs[0], k) else PlaceInAll(vs[1..], k - first)
  }

  /** The error of reading on at the cut. */
  function ErrorAt(p: Place): ParseError {
    match p
    case ValueStart => UnexpectedEof
    case Payload => IoUnexpectedEof
    case Elsewhere => IoEof
  }

  // ---------------------------------------------------------------- cuts inside one value

  lemma CutLine(tag: Byte, text: Bytes, k: nat)
    requires LF !in text && 0 < k < |Line(tag, text)|
    ensures Line(tag, text)[..k][0] == tag
    ensures ReadLine(Line(tag, text)[..k][1..]) == Err(IoEof, [])
    ensures ReadNumber(Line(tag, text)[..k][1..]) == Err(IoEof, [])
  {
    var s := Line(tag, text)[..k][1..];
    forall i | 0 <= i < |s|
      ensures s[i] != LF
    {
      assert s[i] == (text + CRLF)[i];
      assert i < |text| ==> s[i] == text[i] && text[i] in text;
    }
  }

  lemma CutNumberLine(tag: Byte, n: int, k: nat)
    requires IsInt64(n) && 0 < k < |Line(tag, FormatInt(n))|
    ensures Line(tag, FormatInt(n))[..k][0] == tag
    ensures ReadNumber(Line(tag, FormatInt(n))[..k][1..]) == Err(IoEof, [])
  {
    FormatThenParse(n);
    CutLine(tag, FormatInt(n), k);
  }

  lemma CutScalar(v: Value, k: nat)
    requires Wire(v) && !v.Array? && !v.BulkString? && 0 < k < |Encode(v)|
    ensures Parse(Encode(v)[..k]) == Err(IoEof, [])
  {
    hide ReadLine, ReadNumber, Line, FormatInt, EncodeAll, ParseItems, ReadFull, ExpectCRLF;
    match v
    case SimpleString(s) => CutLine(TAG_SIMPLE, s, k);
    case Error(s) => CutLine(TAG_ERROR, s, k);
    case Integer(n) => CutNumberLine(TAG_INTEGER, n, k);
    case NullBulk => CutNumberLine(TAG_BULK, -1, k);
    case NullArray => CutNumberLine(TAG_ARRAY, -1, k);
  }

  /** A cut somewhere behind `a`. */
  lemma CutBehind(a: Bytes, b: Bytes, k: nat)
    requires |a| <= k <= |a + b|
    ensures (a + b)[..k] == a + b[..k - |a|]
  {
  }

  lemma CutBefore(a: Bytes, b: Bytes, k: nat)
    requires k <= |a|
    ensures (a + b)[..k] == a[..k]
  {
  }

  lemma CutBulkBody(b: Bytes, k: nat)
    requires k < |b| + 2
    ensures var body := (b + CRLF)[..k];
            if k < |b| then ReadFull(body, |b|) == Err(if k == 0 then IoEof else IoUnexpectedEof, [])
            else ReadFull(body, |b|) == Ok(b, CRLF[..k - |b|]) && ExpectCRLF(CRLF[..k - |b|]) == Err(IoEof, [])
  {
    var body := (b + CRLF)[..k];
    if k >= |b| {
      CutBehind(b, CRLF, k);
      assert body[..|b|] == b && body[|b|..] == CRLF[..k - |b|];
    }
  }

  lemma CutBulk(b: Bytes, k: nat)
    requires |b| <= MAX_BULK_SIZE && 0 < k < |Encode(BulkString(b))|
    ensures Parse(Encode(BulkString(b))[..k]) == Err(ErrorAt(PlaceIn(BulkString(b), k)), [])
  {
    hide ReadNumber, ReadFull, ExpectCRLF, Line, FormatInt, ParseArray;
    var header := Line(TAG_BULK, FormatInt(|b|));
    Associate(header, b, CRLF);
    if k < |header| {
      CutBefore(header, b + CRLF, k);
      CutNumberLine(TAG_BULK, |b|, k);
    } else {
      CutBehind(header, b + CRLF, k);
      ReadNumberBack(TAG_BULK, |b|, (b + CRLF)[..k - |header|]);
      CutBulkBody(b, k - |header|);
    }
  }

  /** The parser's error on a value cut short is told by the place of the cut, and everything before it is consumed. */
  lemma {:induction false} CutValue(v: Value, k: nat)
    requires Wire(v) && k < |Encode(v)|
    ensures Parse(Encode(v)[..k]) == Err(ErrorAt(PlaceIn(v, k)), [])
    decreases v, 0
  {
    hide Parse, Encode, PlaceInAll;
    if k == 0 {
      EmptyInput();
    } else {
      match v
      case Array(items) => CutArray(items, k);
      case BulkString(b) => CutBulk(b, k);
      case _ => CutScalar(v, k);
    }
  }

  lemma EmptyInput()
    ensures Parse([]) == Err(UnexpectedEof, [])
  {
  }

  lemma {:induction false} CutArray(items: seq<Value>, k: nat)
    requires Wire(Array(items)) && 0 < k < |Encode(Array(items))|
    ensures Parse(Encode(Array(items))[..k]) == Err(ErrorAt(PlaceIn(Array(items), k)), [])
    decreases items, 2
  {
    hide ReadNumber, Line, FormatInt, ParseItems, EncodeAll, PlaceInAll;
    var header := Line(TAG_ARRAY, FormatInt(|items|));
    if k < |header| {
      CutBefore(header, EncodeAll(items), k);
      CutNumberLine(TAG_ARRAY, |items|, k);
    } else {
      CutBehind(header, EncodeAll(items), k);
      ReadNumberBack(TAG_ARRAY, |items|, EncodeAll(items)[..k - |header|]);
      CutItems(items, k - |header|);
    }
  }

  lemma {:induction false} CutItems(vs: seq<Value>, k: nat)
    requires WireAll(vs) && k < |EncodeAll(vs)|
    ensures ParseItems(EncodeAll(vs)[..k], |vs|) == Err(ErrorAt(PlaceInAll(vs, k)), [])
    decreases vs, 1
  {
    hide Parse, Encode, PlaceIn;
    var first, others := Encode(vs[0]), EncodeAll(vs[1..]);
    if k < |first| {
      CutBefore(first, others, k);
      CutValue(vs[0], k);
    } else {
      CutBehind(first, others, k);
      RoundTrip(vs[0], others[..k - |first|]);
      CutItems(vs[1..], k - |first|);
    }
  }

  // ---------------------------------------------------------------- cuts inside a stream

  /** How many values lie whole before the cut. */
  function Whole(vs: seq<Value>, k: nat): (n: nat)
    requires k <= |EncodeAll(vs)|
    ensures n <= |vs|
  {
    if vs == [] || k < |Encode(vs[0])| then 0 else 1 + Whole(vs[1..], k - |Encode(vs[0])|)
  }

  /** The whole values before the cut take up at most `k` bytes, and one more would take up more. */
  lemma {:induction false} WholeFits(vs: seq<Value>, k: nat)
    requires k <= |EncodeAll(vs)|
    ensures |EncodeAll(vs[..Whole(vs, k)])| <= k
    ensures Whole(vs, k) < |vs| ==> k < |EncodeAll(vs[..Whole(vs, k) + 1])|
  {
    hide Encode;
    var n := Whole(vs, k);
    if n > 0 {
      WholeFits(vs[1..], k - |Encode(vs[0])|);
      assert vs[..n][1..] == vs[1..][..n - 1];
    }
    if n < |vs| {
      assert vs[..n + 1][1..] == vs[1..][..n];
    }
  }

  /** A stream of encoded values cut anywhere is read as its whole values and the error of the place of the cut. */
  lemma {:induction false} CutStream(vs: seq<Value>, k: nat)
    requires WireAll(vs) && k <= |EncodeAll(vs)|
    ensures ParseStream(EncodeAll(vs)[..k]) == (vs[..Whole(vs, k)], ErrorAt(PlaceInAll(vs, k)))
  {
    hide Parse, Encode, PlaceIn;
    if vs == [] {
      EmptyInput();
    } else {
      var first, others := Encode(vs[0]), EncodeAll(vs[1..]);
      if k < |first| {
        CutBefore(first, others, k);
        CutValue(vs[0], k);
      } else {
        CutBehind(first, others, k);
        StreamHead(vs[0], others[..k - |first|]);
        CutStream(vs[1..], k - |first|);
        assert vs[..Whole(vs, k)] == [vs[0]] + vs[1..][..Whole(vs, k) - 1];
      }
    }
  }
}
