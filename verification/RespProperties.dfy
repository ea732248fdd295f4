/**
 What the codec is for: writing then reading gives the value back, an outcome already reached never changes when
 more input arrives, encodings are prefix-free, and an accepted value is bounded by the bytes it was read from.
 */
module RespProperties {
  import opened Bytes
  import opened Decimal
  import opened Resp

  // ---------------------------------------------------------------- extension stability

  lemma {:induction false} FindLFInPrefix(s: Bytes, t: Bytes)
    requires FindLF(s) < |s|
    ensures FindLF(s + t) == FindLF(s)
  {
    assert (s + t)[0] == s[0];
    if s[0] != LF {
      assert (s + t)[1..] == s[1..] + t;
      FindLFInPrefix(s[1..], t);
    }
  }

  lemma ReadLineStable(s: Bytes, t: Bytes)
    requires ReadLine(s).Settled()
    ensures ReadLine(s + t) == ReadLine(s).More(t)
  {
    var i := FindLF(s);
    FindLFInPrefix(s, t);
    assert (s + t)[i + 1..] == s[i + 1..] + t;
    if i > 0 {
      assert (s + t)[..i - 1] == s[..i - 1];
    }
  }

  lemma ReadNumberStable(s: Bytes, t: Bytes)
    requires ReadNumber(s).Settled()
    ensures ReadNumber(s + t) == ReadNumber(s).More(t)
  {
    ReadLineStable(s, t);
  }

  lemma ExpectCRLFStable(s: Bytes, t: Bytes)
    requires ExpectCRLF(s).Settled()
    ensures ExpectCRLF(s + t) == ExpectCRLF(s).More(t)
  {
  }

  lemma ParseBulkStable(s: Bytes, t: Bytes)
    requires ParseBulk(s).Settled()
    ensures ParseBulk(s + t) == ParseBulk(s).More(t)
  {
    hide ReadNumber, ExpectCRLF;
    ReadNumberStable(s, t);
    var number := ReadNumber(s);
    if number.Ok? && 0 <= number.value <= MAX_BULK_SIZE {
      var length, r := number.value, number.rest;
      assert (r + t)[..length] == r[..length];
      assert (r + t)[length..] == r[length..] + t;
      ExpectCRLFStable(r[length..], t);
    }
  }

  /** An outcome other than end-of-input is final: the same outcome, with the same bytes consumed, whatever follows. */
  lemma {:induction false} ParseStable(s: Bytes, t: Bytes)
    requires Parse(s).Settled()
    ensures Parse(s + t) == Parse(s).More(t)
    decreases |s|, 0
  {
    hide ReadNumber, ParseBulk, ParseArray, ReadLine;
    assert (s + t)[0] == s[0];
    assert (s + t)[1..] == s[1..] + t;
    if s[0] == TAG_SIMPLE || s[0] == TAG_ERROR {
      ReadLineStable(s[1..], t);
    } else if s[0] == TAG_INTEGER {
      ReadNumberStable(s[1..], t);
    } else if s[0] == TAG_BULK {
      ParseBulkStable(s[1..], t);
    } else if s[0] == TAG_ARRAY {
      ParseArrayStable(s[1..], t);
    }
  }

  lemma {:induction false} ParseArrayStable(s: Bytes, t: Bytes)
    requires ParseArray(s).Settled()
    ensures ParseArray(s + t) == ParseArray(s).More(t)
    decreases |s|, 0
  {
    hide ReadNumber, ParseItems;
    ReadNumberStable(s, t);
    var number := ReadNumber(s);
    if number.Ok? && 0 <= number.value <= MAX_ARRAY_LENGTH {
      ParseItemsStable(number.rest, number.value, t);
    }
  }

  lemma {:induction false} ParseItemsStable(s: Bytes, n: nat, t: Bytes)
    requires ParseItems(s, n).Settled()
    ensures ParseItems(s + t, n) == ParseItems(s, n).More(t)
    decreases |s|, n
  {
    hide Parse;
    if n > 0 {
      ParseStable(s, t);
      var first := Parse(s);
      if first.Ok? {
        ParseItemsStable(first.rest, n - 1, t);
      }
    }
  }

  // ---------------------------------------------------------------- consumption

  /** What is left unread is the end of the input. */
  predicate Suffix(r: Bytes, s: Bytes) {
    |r| <= |s| && s[|s| - |r|..] == r
  }

  lemma SuffixTransitive(a: Bytes, b: Bytes, c: Bytes)
    requires Suffix(a, b) && Suffix(b, c)
    ensures Suffix(a, c)
  {
  }

  lemma SuffixTail(s: Bytes)
    ensures Suffix([], s) && Suffix(s, s)
    ensures s != [] ==> Suffix(s[1..], s)
  {
  }

  lemma ReadNumberSuffix(s: Bytes)
    ensures Suffix(ReadNumber(s).rest, s) && Suffix(ReadLine(s).rest, s)
  {
  }

  lemma ParseBulkSuffix(s: Bytes)
    ensures Suffix(ParseBulk(s).rest, s)
  {
    hide ReadNumber;
    ReadNumberSuffix(s);
    var number := ReadNumber(s);
    if number.Ok? && 0 <= number.value <= MAX_BULK_SIZE {
      BulkBodySuffix(number.rest, number.value);
      SuffixTransitive(ParseBulk(s).rest, number.rest, s);
    }
  }

  lemma BulkBodySuffix(r: Bytes, length: nat)
    ensures Suffix(ReadFull(r, length).rest, r)
    ensures ReadFull(r, length).Ok? ==> Suffix(ExpectCRLF(ReadFull(r, length).rest).rest, r)
  {
  }

  /** Whatever the outcome, the parser reads a prefix of the input and leaves the rest as it was. */
  lemma {:induction false} ParseSuffix(s: Bytes)
    ensures Suffix(Parse(s).rest, s)
    decreases |s|, 0
  {
    hide ReadNumber, ReadLine, ParseBulk, ParseArray, Suffix;
    SuffixTail(s);
    if s != [] {
      ReadNumberSuffix(s[1..]);
      ParseBulkSuffix(s[1..]);
      ParseArraySuffix(s[1..]);
      var rest := Parse(s).rest;
      if rest != s[1..] {
        SuffixTransitive(rest, s[1..], s);
      }
    }
  }

  lemma {:induction false} ParseArraySuffix(s: Bytes)
    ensures Suffix(ParseArray(s).rest, s)
    decreases |s|, 0
  {
    hide ReadNumber, ParseItems, Suffix;
    ReadNumberSuffix(s);
    var number := ReadNumber(s);
    if number.Ok? && 0 <= number.value <= MAX_ARRAY_LENGTH {
      ParseItemsSuffix(number.rest, number.value);
      SuffixTransitive(ParseArray(s).rest, number.rest, s);
    }
  }

  lemma {:induction false} ParseItemsSuffix(s: Bytes, n: nat)
    ensures Suffix(ParseItems(s, n).rest, s)
    decreases |s|, n
  {
    hide Parse, Suffix;
    SuffixTail(s);
    if n > 0 {
      ParseSuffix(s);
      var first := Parse(s);
      if first.Ok? {
        ParseItemsSuffix(first.rest, n - 1);
        SuffixTransitive(ParseItems(s, n).rest, first.rest, s);
      }
    }
  }

  // ---------------------------------------------------------------- prefixes

  /** Cut an accepted input anywhere short of its end and the parser only reports that the input ended too soon. */
  lemma CutInputIsEof(s: Bytes, k: nat)
    requires Parse(s).Ok? && k < |s| - |Parse(s).rest|
    ensures Parse(s[..k]).Err? && IsEofClass(Parse(s[..k]).error)
  {
    assert s[..k] + s[k..] == s;
    if Parse(s[..k]).Settled() {
      ParseStable(s[..k], s[k..]);
    }
  }

  // ---------------------------------------------------------------- round trip

  lemma {:induction false} FindLFAfter(text: Bytes, t: Bytes)
    requires LF !in text
    ensures FindLF(text + CRLF + t) == |text| + 1
  {
    var s := text + CRLF + t;
    if text == [] {
      assert s[0] == CR && s[1..][0] == LF;
    } else {
      assert s[0] == text[0];
      assert s[1..] == text[1..] + CRLF + t;
      FindLFAfter(text[1..], t);
    }
  }

  lemma ReadLineBack(tag: Byte, text: Bytes, t: Bytes)
    requires LF !in text
    ensures (Line(tag, text) + t)[0] == tag
    ensures ReadLine((Line(tag, text) + t)[1..]) == Ok(text, t)
  {
    var s := text + CRLF + t;
    assert (Line(tag, text) + t)[1..] == s;
    FindLFAfter(text, t);
    assert s[..|text|] == text;
    assert s[|text|] == CR;
    assert s[|text| + 2..] == t;
  }

  lemma ReadNumberBack(tag: Byte, n: int, t: Bytes)
    requires IsInt64(n)
    ensures (Line(tag, FormatInt(n)) + t)[0] == tag
    ensures ReadNumber((Line(tag, FormatInt(n)) + t)[1..]) == Ok(n, t)
  {
    FormatThenParse(n);
    ReadLineBack(tag, FormatInt(n), t);
  }

  lemma BulkBodyBack(b: Bytes, t: Bytes)
    ensures ReadFull(b + CRLF + t, |b|) == Ok(b, CRLF + t)
    ensures ExpectCRLF(CRLF + t) == Ok((), t)
  {
    var s := b + CRLF + t;
    assert s[..|b|] == b;
    assert s[|b|..] == CRLF + t;
    assert (CRLF + t)[2..] == t;
  }

  lemma BulkRoundTrip(b: Bytes, t: Bytes)
    requires |b| <= MAX_BULK_SIZE
    ensures Parse(Encode(BulkString(b)) + t) == Ok(BulkString(b), t)
  {
    hide ReadNumber, ReadFull, ExpectCRLF, ParseArray, FormatInt;
    ReadNumberBack(TAG_BULK, |b|, b + CRLF + t);
    BulkBodyBack(b, t);
    Associate(Line(TAG_BULK, FormatInt(|b|)) + b, CRLF, t);
    Associate(Line(TAG_BULK, FormatInt(|b|)), b, CRLF + t);
    Associate(b, CRLF, t);
  }

  lemma ScalarRoundTrip(v: Value, t: Bytes)
    requires Wire(v) && !v.Array? && !v.BulkString?
    ensures Parse(Encode(v) + t) == Ok(v, t)
  {
    hide ParseItems, EncodeAll, FindLF, FormatInt, ReadFull, ExpectCRLF;
    match v
    case SimpleString(s) => ReadLineBack(TAG_SIMPLE, s, t);
    case Error(s) => ReadLineBack(TAG_ERROR, s, t);
    case Integer(n) => ReadNumberBack(TAG_INTEGER, n, t);
    case NullBulk => ReadNumberBack(TAG_BULK, -1, t);
    case NullArray => ReadNumberBack(TAG_ARRAY, -1, t);
  }

  /** Every value the wire can carry is read back exactly, leaving whatever follows it untouched. */
  lemma {:induction false} RoundTrip(v: Value, t: Bytes)
    requires Wire(v)
    ensures Parse(Encode(v) + t) == Ok(v, t)
    decreases v, 0
  {
    hide Parse, Encode;
    match v
    case Array(items) => ArrayRoundTrip(items, t);
    case BulkString(b) => BulkRoundTrip(b, t);
    case _ => ScalarRoundTrip(v, t);
  }

  lemma {:induction false} ArrayRoundTrip(items: seq<Value>, t: Bytes)
    requires Wire(Array(items))
    ensures Parse(Encode(Array(items)) + t) == Ok(Array(items), t)
    decreases items, 2
  {
    ItemsRoundTrip(items, t);
    Associate(Line(TAG_ARRAY, FormatInt(|items|)), EncodeAll(items), t);
    ArrayFrame(items, EncodeAll(items) + t, t);
  }

  /** The header of an array is read back, so the array is, once its items are. */
  lemma ArrayFrame(items: seq<Value>, body: Bytes, t: Bytes)
    requires |items| <= MAX_ARRAY_LENGTH && ParseItems(body, |items|) == Ok(items, t)
    ensures Parse(Line(TAG_ARRAY, FormatInt(|items|)) + body) == Ok(Array(items), t)
  {
    hide ReadNumber, ParseItems;
    ReadNumberBack(TAG_ARRAY, |items|, body);
  }

  lemma Associate(a: Bytes, b: Bytes, c: Bytes)
    ensures (a + b) + c == a + (b + c)
  {
  }

  lemma {:induction false} ItemsRoundTrip(vs: seq<Value>, t: Bytes)
    requires WireAll(vs)
    ensures ParseItems(EncodeAll(vs) + t, |vs|) == Ok(vs, t)
    decreases vs, 1
  {
    hide Parse, Encode;
    if vs == [] {
      assert EncodeAll(vs) + t == t;
    } else {
      assert EncodeAll(vs) + t == Encode(vs[0]) + (EncodeAll(vs[1..]) + t);
      RoundTrip(vs[0], EncodeAll(vs[1..]) + t);
      ItemsRoundTrip(vs[1..], t);
      assert vs == [vs[0]] + vs[1..];
    }
  }

  // ---------------------------------------------------------------- what an accepted value is bounded by

  /** The number of nodes of a value tree. */
  function Nodes(v: Value): nat
    decreases v, 0
  {
    1 + if v.Array? then NodesOf(v.items) else 0
  }

  function NodesOf(vs: seq<Value>): nat
    decreases vs, 1
  {
    if vs == [] then 0 else Nodes(vs[0]) + NodesOf(vs[1..])
  }

  /** The number of bytes held by all bulk strings of a value tree. */
  function BulkBytes(v: Value): nat
    decreases v, 0
  {
    match v
    case BulkString(b) => |b|
    case Array(items) => BulkBytesOf(items)
    case _ => 0
  }

  function BulkBytesOf(vs: seq<Value>): nat
    decreases vs, 1
  {
    if vs == [] then 0 else BulkBytes(vs[0]) + BulkBytesOf(vs[1..])
  }

  lemma ReadNumberAccount(s: Bytes)
    requires ReadNumber(s).Ok?
    ensures |FormatInt(ReadNumber(s).value)| + 2 + |ReadNumber(s).rest| <= |s|
  {
    ParseThenFormatShortest(ReadLine(s).value);
  }

  lemma ReadLineNoLF(s: Bytes)
    requires ReadLine(s).Ok?
    ensures LF !in ReadLine(s).value
  {
  }

  /** `size` bytes pay for the value: for its nodes and bulk bytes, and for writing it again. */
  predicate Affords(size: int, v: Value) {
    Wire(v) && 3 * Nodes(v) + BulkBytes(v) <= size && |Encode(v)| <= size
  }

  predicate AffordsAll(size: int, vs: seq<Value>) {
    WireAll(vs) && 3 * NodesOf(vs) + BulkBytesOf(vs) <= size && |EncodeAll(vs)| <= size
  }

  lemma AffordsCons(a: int, v: Value, b: int, vs: seq<Value>)
    requires Affords(a, v) && AffordsAll(b, vs)
    ensures AffordsAll(a + b, [v] + vs)
  {
  }

  lemma AffordsArray(size: int, vs: seq<Value>)
    requires AffordsAll(size, vs) && |vs| <= MAX_ARRAY_LENGTH
    ensures Affords(size + 3 + |FormatInt(|vs|)|, Array(vs))
  {
  }

  lemma BulkAccount(s: Bytes)
    requires ParseBulk(s).Ok?
    ensures Affords(|s| + 1 - |ParseBulk(s).rest|, ParseBulk(s).value)
  {
    hide ReadNumber;
    ReadNumberAccount(s);
  }

  lemma ScalarAccount(s: Bytes)
    requires Parse(s).Ok? && s[0] != TAG_ARRAY && s[0] != TAG_BULK
    ensures Affords(|s| - |Parse(s).rest|, Parse(s).value)
  {
    hide ParseArray, ParseBulk, FindLF;
    if s[0] == TAG_INTEGER {
      ReadNumberAccount(s[1..]);
    } else {
      ReadLineNoLF(s[1..]);
    }
  }

  /**
   An accepted value is one the wire can carry (both caps at every depth, 64-bit integers, one-line strings);
   its nodes and bulk bytes are paid for by the bytes consumed; and writing it again takes no more bytes than
   reading it did.
   */
  lemma {:induction false} ParseAccount(s: Bytes)
    requires Parse(s).Ok?
    ensures Affords(|s| - |Parse(s).rest|, Parse(s).value)
    decreases |s|, 0
  {
    hide Affords, ParseArray, ParseBulk;
    if s[0] == TAG_ARRAY {
      ParseArrayAccount(s[1..]);
    } else if s[0] == TAG_BULK {
      BulkAccount(s[1..]);
    } else {
      ScalarAccount(s);
    }
  }

  lemma {:induction false} ParseArrayAccount(s: Bytes)
    requires ParseArray(s).Ok?
    ensures Affords(|s| + 1 - |ParseArray(s).rest|, ParseArray(s).value)
    decreases |s|, 0
  {
    hide ReadNumber, ParseItems, AffordsAll;
    ReadNumberAccount(s);
    var number := ReadNumber(s);
    if number.value != -1 {
      ParseItemsAccount(number.rest, number.value);
      AffordsArray(|number.rest| - |ParseArray(s).rest|, ParseArray(s).value.items);
    }
  }

  lemma {:induction false} ParseItemsAccount(s: Bytes, n: nat)
    requires ParseItems(s, n).Ok?
    ensures AffordsAll(|s| - |ParseItems(s, n).rest|, ParseItems(s, n).value)
    decreases |s|, n
  {
    hide Parse, Affords, Encode, Nodes, Wire;
    if n > 0 {
      ParseAccount(s);
      var first := Parse(s);
      ParseItemsAccount(first.rest, n - 1);
      var others := ParseItems(first.rest, n - 1);
      AffordsCons(|s| - |first.rest|, first.value, |first.rest| - |others.rest|, others.value);
    }
  }

  /**
   Canonicalisation: whatever numerals (`+6`, `006`, `-01`) an accepted input used, its value re-encodes to no more
   bytes than were consumed, and that encoding is read back as the same value.
   */
  lemma Canonicalisation(s: Bytes, t: Bytes)
    requires Parse(s).Ok?
    ensures |Encode(Parse(s).value)| <= |s| - |Parse(s).rest|
    ensures Parse(Encode(Parse(s).value) + t) == Ok(Parse(s).value, t)
  {
    ParseAccount(s);
    RoundTrip(Parse(s).value, t);
  }

  /** The round trip succeeds on exactly the values the wire can carry. */
  lemma RoundTripExactly(v: Value, t: Bytes)
    ensures Parse(Encode(v) + t) == Ok(v, t) <==> Wire(v)
  {
    hide Parse, Encode, Wire, Nodes, BulkBytes;
    if Wire(v) {
      RoundTrip(v, t);
    } else if Parse(Encode(v) + t) == Ok(v, t) {
      ParseAccount(Encode(v) + t);
    }
  }

  // ---------------------------------------------------------------- unique decoding of streams

  /** The values read one after another until the first failure, and that failure. */
  function ParseStream(s: Bytes): (p: (seq<Value>, ParseError))
    decreases |s|
  {
    match Parse(s)
    case Err(e, _) => ([], e)
    case Ok(v, r) => ([v] + ParseStream(r).0, ParseStream(r).1)
  }

  lemma SplitHead(vs: seq<Value>, ws: seq<Value>)
    ensures vs == [] ==> vs + ws == ws
    ensures vs != [] ==> vs + ws == [vs[0]] + (vs[1..] + ws)
  {
  }

  lemma StreamHead(v: Value, t: Bytes)
    requires Wire(v)
    ensures ParseStream(Encode(v) + t) == ([v] + ParseStream(t).0, ParseStream(t).1)
  {
    RoundTrip(v, t);
  }

  /** Concatenated encodings are taken apart exactly where they were joined. */
  lemma {:induction false} StreamRoundTrip(vs: seq<Value>, t: Bytes)
    requires WireAll(vs)
    ensures ParseStream(EncodeAll(vs) + t) == (vs + ParseStream(t).0, ParseStream(t).1)
  {
    if vs == [] {
      assert EncodeAll(vs) + t == t;
      SplitHead(vs, ParseStream(t).0);
    } else {
      Associate(Encode(vs[0]), EncodeAll(vs[1..]), t);
      StreamHead(vs[0], EncodeAll(vs[1..]) + t);
      StreamRoundTrip(vs[1..], t);
      SplitHead(vs, ParseStream(t).0);
    }
  }

  lemma ParsedIsWire(s: Bytes)
    requires Parse(s).Ok?
    ensures Wire(Parse(s).value)
  {
    hide Parse, Wire;
    ParseAccount(s);
  }

  /** Only values the wire can carry are ever read. */
  lemma {:induction false} StreamWire(s: Bytes)
    ensures WireAll(ParseStream(s).0)
    decreases |s|
  {
    hide Parse, Wire;
    var first := Parse(s);
    if first.Ok? {
      ParsedIsWire(s);
      StreamWire(first.rest);
    }
  }

  /** A list of values is read back from its encodings, one after another, exactly if the wire can carry them all. */
  lemma StreamRoundTripExactly(vs: seq<Value>)
    ensures ParseStream(EncodeAll(vs)) == (vs, UnexpectedEof) <==> WireAll(vs)
  {
    StreamWire(EncodeAll(vs));
    if WireAll(vs) {
      StreamRoundTrip(vs, []);
      assert EncodeAll(vs) + [] == EncodeAll(vs) && vs + [] == vs;
    }
  }

  /** Encodings are prefix-free. */
  lemma PrefixFree(u: Value, v: Value, t: Bytes)
    requires Wire(u) && Wire(v) && Encode(u) + t == Encode(v)
    ensures u == v && t == []
  {
    hide Parse, Encode, Wire;
    RoundTrip(u, t);
    RoundTrip(v, []);
    assert Encode(v) + [] == Encode(v);
  }

  /** A byte stream is the encoding of at most one list of values. */
  lemma UniqueDecoding(us: seq<Value>, vs: seq<Value>)
    requires WireAll(us) && WireAll(vs) && EncodeAll(us) == EncodeAll(vs)
    ensures us == vs
  {
    StreamRoundTrip(us, []);
    StreamRoundTrip(vs, []);
    assert us + ParseStream([]).0 == us && vs + ParseStream([]).0 == vs;
  }

  lemma {:induction false} EncodeAllAppend(us: seq<Value>, vs: seq<Value>)
    ensures EncodeAll(us + vs) == EncodeAll(us) + EncodeAll(vs)
  {
    if us == [] {
      assert us + vs == vs;
    } else {
      assert (us + vs)[1..] == us[1..] + vs;
      EncodeAllAppend(us[1..], vs);
    }
  }

  lemma EncodeAllOneMore(us: seq<Value>, v: Value)
    ensures EncodeAll(us + [v]) == EncodeAll(us) + Encode(v)
  {
    EncodeAllAppend(us, [v]);
    assert EncodeAll([v]) == Encode(v) + EncodeAll([v][1..]);
  }
}
