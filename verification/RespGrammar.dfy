/**
 The wire format as a grammar over bytes: which bytes stand for which value, and at which bytes, for which reason, a
 reading must fail. The parser is proved to be exactly this grammar.
 */
module RespGrammar {
  import opened Bytes
  import opened Decimal
  import opened Numerals
  import opened Resp
  import opened RespProperties

  // ---------------------------------------------------------------- the grammar of values

  /** The bytes `t` stand for the value `v`. */
  ghost predicate Reads(t: Bytes, v: Value)
    decreases v, 0
  {
    match v
    case SimpleString(s) => t == [0x2B] + s + [0x0D, 0x0A] && 0x0A !in s
    case Error(s) => t == [0x2D] + s + [0x0D, 0x0A] && 0x0A !in s
    case Integer(n) => exists line :: Numeral(line, n) && t == [0x3A] + line + [0x0D, 0x0A]
    case BulkString(b) =>
      |b| <= 536_870_912 && exists line :: Numeral(line, |b|) && t == [0x24] + line + [0x0D, 0x0A] + (b + [0x0D, 0x0A])
    case NullBulk => exists line :: Numeral(line, -1) && t == [0x24] + line + [0x0D, 0x0A]
    case Array(items) =>
      |items| <= 1_048_576 && exists line, body ::
        Numeral(line, |items|) && ReadsAll(body, items) && t == [0x2A] + line + [0x0D, 0x0A] + body
    case NullArray => exists line :: Numeral(line, -1) && t == [0x2A] + line + [0x0D, 0x0A]
  }

  /** The bytes `t` stand for the values `vs`, one after another. */
  ghost predicate ReadsAll(t: Bytes, vs: seq<Value>)
    decreases vs, 1
  {
    if vs == [] then t == []
    else exists first, rest :: Reads(first, vs[0]) && ReadsAll(rest, vs[1..]) && t == first + rest
  }

  // ---------------------------------------------------------------- reading what the grammar says

  lemma LineReadsBack(tag: Byte, text: Bytes, r: Bytes)
    requires 0x0A !in text
    ensures ([tag] + text + [0x0D, 0x0A] + r)[0] == tag
    ensures ReadLine(([tag] + text + [0x0D, 0x0A] + r)[1..]) == Ok(text, r)
  {
    ReadLineBack(tag, text, r);
    assert [tag] + text + [0x0D, 0x0A] == Line(tag, text);
  }

  lemma NumeralIsLine(line: Bytes, n: int)
    requires Numeral(line, n)
    ensures 0x0A !in line && ParseInt(line) == Some(n)
  {
    ParseIntExactly(line);
  }

  lemma NumberReadsBack(tag: Byte, line: Bytes, n: int, r: Bytes)
    requires Numeral(line, n)
    ensures ([tag] + line + [0x0D, 0x0A] + r)[0] == tag
    ensures ReadNumber(([tag] + line + [0x0D, 0x0A] + r)[1..]) == Ok(n, r)
  {
    NumeralIsLine(line, n);
    LineReadsBack(tag, line, r);
  }

  lemma {:induction false} ReadsBack(t: Bytes, v: Value, r: Bytes)
    requires Reads(t, v)
    ensures Parse(t + r) == Ok(v, r)
    decreases v, 0
  {
    hide ReadNumber, ReadLine, ParseItems, ReadFull, ExpectCRLF, Numeral, ReadsAll;
    match v
    case SimpleString(s) => LineReadsBack(0x2B, s, r);
    case Error(s) => LineReadsBack(0x2D, s, r);
    case Integer(n) =>
      var line :| Numeral(line, n) && t == [0x3A] + line + [0x0D, 0x0A];
      NumberReadsBack(0x3A, line, n, r);
    case NullBulk =>
      var line :| Numeral(line, -1) && t == [0x24] + line + [0x0D, 0x0A];
      NumberReadsBack(0x24, line, -1, r);
    case NullArray =>
      var line :| Numeral(line, -1) && t == [0x2A] + line + [0x0D, 0x0A];
      NumberReadsBack(0x2A, line, -1, r);
    case BulkString(b) =>
      var line :| Numeral(line, |b|) && t == [0x24] + line + [0x0D, 0x0A] + (b + [0x0D, 0x0A]);
      NumberReadsBack(0x24, line, |b|, b + CRLF + r);
      BulkBodyBack(b, r);
      Associate([0x24] + line + [0x0D, 0x0A], b + CRLF, r);
      Associate(b, CRLF, r);
    case Array(items) =>
      var line, body :|
        Numeral(line, |items|) && ReadsAll(body, items) && t == [0x2A] + line + [0x0D, 0x0A] + body;
      NumberReadsBack(0x2A, line, |items|, body + r);
      Associate([0x2A] + line + [0x0D, 0x0A], body, r);
      AllReadBack(body, items, r);
  }

  lemma {:induction false} AllReadBack(t: Bytes, vs: seq<Value>, r: Bytes)
    requires ReadsAll(t, vs)
    ensures ParseItems(t + r, |vs|) == Ok(vs, r)
    decreases vs, 1
  {
    hide Parse, Reads;
    if vs == [] {
      assert t + r == r;
    } else {
      var first, rest :| Reads(first, vs[0]) && ReadsAll(rest, vs[1..]) && t == first + rest;
      Associate(first, rest, r);
      ReadsBack(first, vs[0], rest + r);
      AllReadBack(rest, vs[1..], r);
      assert vs == [vs[0]] + vs[1..];
    }
  }

  // ---------------------------------------------------------------- what is read is what the grammar says

  lemma LineSplit(s: Bytes)
    requires ReadLine(s).Ok?
    ensures 0x0A !in ReadLine(s).value && s == ReadLine(s).value + [0x0D, 0x0A] + ReadLine(s).rest
  {
  }

  lemma NumberSplit(s: Bytes) returns (line: Bytes)
    requires ReadNumber(s).Ok?
    ensures Numeral(line, ReadNumber(s).value) && s == line + [0x0D, 0x0A] + ReadNumber(s).rest
  {
    hide Numeral;
    LineSplit(s);
    line := ReadLine(s).value;
    ParseIntExactly(line);
  }

  lemma Retag(tag: Byte, s: Bytes, line: Bytes, r: Bytes)
    requires s != [] && s[0] == tag && s[1..] == line + [0x0D, 0x0A] + r
    ensures s == [tag] + line + [0x0D, 0x0A] + r
  {
  }

  lemma BulkSplit(r: Bytes, length: nat)
    requires ReadFull(r, length).Ok? && ExpectCRLF(ReadFull(r, length).rest).Ok?
    ensures r == ReadFull(r, length).value + [0x0D, 0x0A] + ExpectCRLF(ReadFull(r, length).rest).rest
  {
    var b, r1 := ReadFull(r, length).value, ReadFull(r, length).rest;
    assert r == b + r1;
    assert r1 == [0x0D, 0x0A] + r1[2..];
  }

  lemma ScalarAccepted(s: Bytes) returns (t: Bytes)
    requires Parse(s).Ok? && s[0] != TAG_ARRAY
    ensures Reads(t, Parse(s).value) && s == t + Parse(s).rest
  {
    hide ReadNumber, ReadFull, ExpectCRLF, ParseArray, FindLF, Numeral;
    var v, r := Parse(s).value, Parse(s).rest;
    if s[0] == TAG_SIMPLE || s[0] == TAG_ERROR {
      LineSplit(s[1..]);
      var line := ReadLine(s[1..]).value;
      Retag(s[0], s, line, r);
      t := [s[0]] + line + [0x0D, 0x0A];
    } else {
      var line := NumberSplit(s[1..]);
      var number := ReadNumber(s[1..]);
      Retag(s[0], s, line, number.rest);
      t := [s[0]] + line + [0x0D, 0x0A];
      if v.BulkString? {
        BulkSplit(number.rest, number.value);
        Associate(t, v.bulk + [0x0D, 0x0A], r);
        t := t + (v.bulk + [0x0D, 0x0A]);
      }
    }
  }

  lemma {:induction false} Accepted(s: Bytes) returns (t: Bytes)
    requires Parse(s).Ok?
    ensures Reads(t, Parse(s).value) && s == t + Parse(s).rest
    decreases |s|, 1
  {
    hide Reads, ReadsAll, ReadNumber, ParseItems, Numeral;
    if s[0] == TAG_ARRAY {
      t := ArrayAccepted(s);
    } else {
      t := ScalarAccepted(s);
    }
  }

  lemma {:induction false} ArrayAccepted(s: Bytes) returns (t: Bytes)
    requires Parse(s).Ok? && s[0] == TAG_ARRAY
    ensures Reads(t, Parse(s).value) && s == t + Parse(s).rest
    decreases |s|, 0
  {
    hide ReadsAll, ReadNumber, ParseItems, Numeral;
    var line := NumberSplit(s[1..]);
    var number := ReadNumber(s[1..]);
    Retag(TAG_ARRAY, s, line, number.rest);
    t := [TAG_ARRAY] + line + [0x0D, 0x0A];
    if Parse(s).value.Array? {
      var body := AllAccepted(number.rest, number.value);
      Associate(t, body, Parse(s).rest);
      t := t + body;
    }
  }

  lemma {:induction false} AllAccepted(s: Bytes, n: nat) returns (t: Bytes)
    requires ParseItems(s, n).Ok?
    ensures ReadsAll(t, ParseItems(s, n).value) && s == t + ParseItems(s, n).rest
    decreases |s|, n + 1
  {
    hide Parse, Reads;
    t := [];
    if n > 0 {
      var first := Accepted(s);
      var rest := AllAccepted(Parse(s).rest, n - 1);
      var vs := ParseItems(Parse(s).rest, n - 1).value;
      Associate(first, rest, ParseItems(s, n).rest);
      assert ([Parse(s).value] + vs)[1..] == vs;
      t := first + rest;
    }
  }

  /** The parser accepts exactly the bytes that the grammar has stand for a value, as that value, and leaves the rest. */
  lemma AcceptsExactly(s: Bytes, v: Value, r: Bytes)
    ensures Parse(s) == Ok(v, r) <==> exists t :: Reads(t, v) && s == t + r
  {
    hide Parse, Reads;
    if t :| Reads(t, v) && s == t + r {
      ReadsBack(t, v, r);
    }
    if Parse(s) == Ok(v, r) {
      var t := Accepted(s);
    }
  }

  // ---------------------------------------------------------------- the grammar of failures

  /** No value starts with this byte. */
  predicate FailsAtType(t: Bytes, e: ParseError) {
    |t| == 1 && t[0] !in {0x2B, 0x2D, 0x3A, 0x24, 0x2A} && e == InvalidType(t[0])
  }

  /** The first line does not end, or ends in 0x0A without 0x0D. */
  predicate FailsInLine(t: Bytes, e: ParseError) {
    && t != [] && t[0] in {0x2B, 0x2D, 0x3A, 0x24, 0x2A}
    && var n := |t| - 1;
       || (0x0A !in t[1..] && e == IoEof)
       || (n > 0 && t[n] == 0x0A && 0x0A !in t[1..n] && (n == 1 || t[n - 1] != 0x0D) && e == InvalidFormat)
  }

  /** The line is no numeral, or that of a length that cannot be. */
  ghost predicate FailsAtNumber(t: Bytes, e: ParseError) {
    && t != [] && t[0] in {0x3A, 0x24, 0x2A}
    && exists line :: BadNumber(line, t[0], e) && t == [t[0]] + line + [0x0D, 0x0A]
  }

  ghost predicate BadNumber(line: Bytes, tag: Byte, e: ParseError) {
    && 0x0A !in line
    && if n :| Numeral(line, n) then
         || (tag != 0x3A && n < -1 && e == InvalidFormat)
         || (tag == 0x24 && n > 536_870_912 && e == TooLarge)
         || (tag == 0x2A && n > 1_048_576 && e == TooLarge)
       else e == InvalidFormat
  }

  /** The bulk string announced is not there in full, or not followed by 0x0D, 0x0A. */
  ghost predicate FailsInPayload(t: Bytes, e: ParseError) {
    exists line, n: nat, p ::
      n <= 536_870_912 && Numeral(line, n) && BadPayload(p, n, e) && t == [0x24] + line + [0x0D, 0x0A] + p
  }

  predicate BadPayload(p: Bytes, n: nat, e: ParseError) {
    if |p| < n then e == if p == [] then IoEof else IoUnexpectedEof
    else if |p| == n then e == IoEof
    else if |p| == n + 1 then e == if p[n] == 0x0D then IoEof else InvalidFormat
    else |p| == n + 2 && p[n] == 0x0D && p[n + 1] != 0x0A && e == InvalidFormat
  }

  /** Reading the bytes `t`, and no further, ends in the error `e`. */
  ghost predicate Fails(t: Bytes, e: ParseError)
    decreases |t|
  {
    || (t == [] && e == UnexpectedEof)
    || FailsAtType(t, e) || FailsInLine(t, e) || FailsAtNumber(t, e) || FailsInPayload(t, e)
    || exists line, n: nat, whole, vs, bad ::
         // an array, one of whose elements fails after others that do not
         && |bad| < |t| && n <= 1_048_576 && Numeral(line, n)
         && ReadsAll(whole, vs) && |vs| < n && Fails(bad, e)
         && t == [0x2A] + line + [0x0D, 0x0A] + (whole + bad)
  }

  // ---------------------------------------------------------------- failing where the grammar says

  lemma LineFails(t: Bytes, e: ParseError)
    requires FailsInLine(t, e)
    ensures Parse(t) == Err(e, [])
  {
    hide ParseItems, ReadFull, ExpectCRLF;
    assert ReadLine(t[1..]) == Err(e, []) by {
      var n := |t| - 1;
      if 0x0A in t[1..] {
        var s := t[1..];
        assert forall i :: 0 <= i < n - 1 ==> s[i] == t[1..n][i];
        assert s[n - 1] == 0x0A && FindLF(s) == n - 1;
      }
    }
  }

  lemma NumberFails(t: Bytes, e: ParseError)
    requires FailsAtNumber(t, e)
    ensures Parse(t) == Err(e, [])
  {
    hide ParseItems, ReadFull, ExpectCRLF, FindLF, Numeral, ReadLine;
    var line :| BadNumber(line, t[0], e) && t == [t[0]] + line + [0x0D, 0x0A];
    LineReadsBack(t[0], line, []);
    assert t + [] == t;
    ParseIntExactly(line);
  }

  lemma PayloadFails(t: Bytes, e: ParseError)
    requires FailsInPayload(t, e)
    ensures Parse(t) == Err(e, [])
  {
    hide ParseItems, ReadNumber, Numeral;
    var line, n: nat, p :|
      n <= 536_870_912 && Numeral(line, n) && BadPayload(p, n, e) && t == [0x24] + line + [0x0D, 0x0A] + p;
    NumberReadsBack(0x24, line, n, p);
    if |p| >= n {
      assert |p[n..]| == |p| - n;
    }
  }

  lemma {:induction false} FailsBack(t: Bytes, e: ParseError)
    requires Fails(t, e)
    ensures Parse(t) == Err(e, [])
    decreases |t|
  {
    hide FailsInLine, FailsAtNumber, FailsInPayload, Numeral, ReadsAll, ParseItems, ReadNumber, ReadLine;
    if FailsInLine(t, e) {
      LineFails(t, e);
    } else if FailsAtNumber(t, e) {
      NumberFails(t, e);
    } else if FailsInPayload(t, e) {
      PayloadFails(t, e);
    } else if t != [] && !FailsAtType(t, e) {
      var line, n: nat, whole, vs, bad :|
        && |bad| < |t| && n <= 1_048_576 && Numeral(line, n)
        && ReadsAll(whole, vs) && |vs| < n && Fails(bad, e)
        && t == [0x2A] + line + [0x0D, 0x0A] + (whole + bad);
      NumberReadsBack(0x2A, line, n, whole + bad);
      FailsBack(bad, e);
      ElementFails(whole, vs, bad, n, e);
    }
  }

  lemma {:induction false} ElementFails(whole: Bytes, vs: seq<Value>, bad: Bytes, n: nat, e: ParseError)
    requires ReadsAll(whole, vs) && |vs| < n && Parse(bad) == Err(e, [])
    ensures ParseItems(whole + bad, n) == Err(e, [])
    decreases |vs|
  {
    hide Parse, Reads;
    if vs == [] {
      assert whole + bad == bad;
    } else {
      var first, rest :| Reads(first, vs[0]) && ReadsAll(rest, vs[1..]) && whole == first + rest;
      Associate(first, rest, bad);
      ReadsBack(first, vs[0], rest + bad);
      ElementFails(rest, vs[1..], bad, n - 1, e);
    }
  }

  // ---------------------------------------------------------------- every failure is one of the grammar's

  /** `t` is what a failed reading of `s` consumed: all of it if the input ended too soon. */
  ghost predicate FailedOn(t: Bytes, s: Bytes, e: ParseError, r: Bytes) {
    s == t + r && (IsEofClass(e) ==> r == [])
  }

  lemma LineFailed(s: Bytes) returns (t: Bytes)
    requires s != [] && s[0] in {0x2B, 0x2D, 0x3A, 0x24, 0x2A} && ReadLine(s[1..]).Err?
    ensures FailsInLine(t, ReadLine(s[1..]).error)
    ensures FailedOn(t, s, ReadLine(s[1..]).error, ReadLine(s[1..]).rest)
  {
    var body, i := s[1..], FindLF(s[1..]);
    t := if i == |body| then s else s[..i + 2];
    if i < |body| {
      assert t[1..i + 1] == body[..i] && t[i + 1] == body[i];
      assert i > 0 ==> t[i] == body[i - 1];
      assert s == t + body[i + 1..];
    } else {
      assert t + [] == s && t[1..] == body;
    }
  }

  lemma NumberFailed(s: Bytes) returns (t: Bytes)
    requires s != [] && s[0] in {0x3A, 0x24, 0x2A} && ReadNumber(s[1..]).Err?
    ensures var p := ReadNumber(s[1..]); FailedOn(t, s, p.error, p.rest) && Fails(t, p.error)
  {
    hide FindLF, ReadLine, Numeral, FailsInLine;
    var p := ReadLine(s[1..]);
    if p.Err? {
      t := LineFailed(s);
    } else {
      LineSplit(s[1..]);
      Retag(s[0], s, p.value, p.rest);
      ParseIntExactly(p.value);
      t := [s[0]] + p.value + [0x0D, 0x0A];
      assert BadNumber(p.value, s[0], InvalidFormat);
      assert FailsAtNumber(t, InvalidFormat);
    }
  }

  lemma BulkFailed(s: Bytes) returns (t: Bytes)
    requires s != [] && s[0] == TAG_BULK && ParseBulk(s[1..]).Err?
    ensures var p := ParseBulk(s[1..]); FailedOn(t, s, p.error, p.rest) && Fails(t, p.error)
  {
    hide ReadNumber, Numeral;
    var number := ReadNumber(s[1..]);
    if number.Err? {
      t := NumberFailed(s);
    } else {
      var line := NumberSplit(s[1..]);
      var n, r := number.value, number.rest;
      NumeralIsLine(line, n);
      Retag(0x24, s, line, r);
      t := [0x24] + line + [0x0D, 0x0A];
      if n < 0 || n > MAX_BULK_SIZE {
        UniqueNumeral(line, n);
        assert BadNumber(line, 0x24, ParseBulk(s[1..]).error);
        assert FailsAtNumber(t, ParseBulk(s[1..]).error);
      } else {
        var body := PayloadFailed(r, n, ParseBulk(s[1..]).error, ParseBulk(s[1..]).rest);
        Associate(t, body, ParseBulk(s[1..]).rest);
        t := t + body;
        assert FailsInPayload(t, ParseBulk(s[1..]).error);
      }
    }
  }

  lemma UniqueNumeral(line: Bytes, n: int)
    requires Numeral(line, n)
    ensures forall k :: Numeral(line, k) <==> k == n
  {
    hide Numeral;
    ParseIntExactly(line);
  }

  lemma PayloadFailed(r: Bytes, n: nat, e: ParseError, rest: Bytes) returns (body: Bytes)
    requires if ReadFull(r, n).Err? then ReadFull(r, n) == Err(e, rest) else ExpectCRLF(ReadFull(r, n).rest) == Err(e, rest)
    ensures BadPayload(body, n, e) && FailedOn(body, r, e, rest)
  {
    body := r[..|r| - |rest|];
    if ReadFull(r, n).Ok? {
      assert r[n..][|r[n..]| - |rest|..] == rest;
      assert r[|r| - |rest|..] == rest;
    }
  }

  lemma {:induction false} Failed(s: Bytes) returns (t: Bytes)
    requires Parse(s).Err?
    ensures FailedOn(t, s, Parse(s).error, Parse(s).rest) && Fails(t, Parse(s).error)
    decreases |s|, 1
  {
    hide FindLF, ReadLine, ReadNumber, ParseBulk, ParseArray, FailsInLine, Numeral;
    if s == [] {
      t := [];
    } else if s[0] == TAG_SIMPLE || s[0] == TAG_ERROR {
      t := LineFailed(s);
    } else if s[0] == TAG_INTEGER {
      t := NumberFailed(s);
    } else if s[0] == TAG_BULK {
      t := BulkFailed(s);
    } else if s[0] == TAG_ARRAY {
      t := ArrayFailed(s);
    } else {
      t := [s[0]];
      assert FailsAtType(t, InvalidType(s[0]));
    }
  }

  lemma {:induction false} ArrayFailed(s: Bytes) returns (t: Bytes)
    requires s != [] && s[0] == TAG_ARRAY && ParseArray(s[1..]).Err?
    ensures var p := ParseArray(s[1..]); FailedOn(t, s, p.error, p.rest) && Fails(t, p.error)
    decreases |s|, 0
  {
    hide ReadNumber, Numeral, ParseItems, ReadsAll;
    var number := ReadNumber(s[1..]);
    if number.Err? {
      t := NumberFailed(s);
    } else {
      var line := NumberSplit(s[1..]);
      var n, r := number.value, number.rest;
      NumeralIsLine(line, n);
      Retag(0x2A, s, line, r);
      t := [0x2A] + line + [0x0D, 0x0A];
      if n < 0 || n > MAX_ARRAY_LENGTH {
        UniqueNumeral(line, n);
        assert BadNumber(line, 0x2A, ParseArray(s[1..]).error);
        assert FailsAtNumber(t, ParseArray(s[1..]).error);
      } else {
        var whole, vs, bad := ElementFailed(r, n);
        Associate(t, whole + bad, ParseArray(s[1..]).rest);
        t := t + (whole + bad);
      }
    }
  }

  lemma {:induction false} ElementFailed(s: Bytes, n: nat) returns (whole: Bytes, vs: seq<Value>, bad: Bytes)
    requires ParseItems(s, n).Err?
    ensures var p := ParseItems(s, n);
            FailedOn(whole + bad, s, p.error, p.rest) && ReadsAll(whole, vs) && |vs| < n && Fails(bad, p.error)
    decreases |s|, n + 1
  {
    hide Parse, Reads, Fails;
    var first := Parse(s);
    if first.Err? {
      bad := Failed(s);
      whole, vs := [], [];
      assert whole + bad == bad;
    } else {
      var head := Accepted(s);
      whole, vs, bad := ElementFailed(first.rest, n - 1);
      Associate(head, whole, bad);
      Associate(head, whole + bad, ParseItems(s, n).rest);
      assert ([first.value] + vs)[1..] == vs;
      whole, vs := head + whole, [first.value] + vs;
    }
  }

  /** The parser fails exactly where and as the grammar says, whatever follows unless the input has ended. */
  lemma FailsExactly(s: Bytes, e: ParseError, r: Bytes)
    ensures Parse(s) == Err(e, r) <==> exists t :: Fails(t, e) && FailedOn(t, s, e, r)
  {
    hide Parse, Fails;
    if t :| Fails(t, e) && FailedOn(t, s, e, r) {
      FailsBack(t, e);
      if IsEofClass(e) {
        assert t + [] == t;
      } else {
        ParseStable(t, r);
        assert [] + r == r;
      }
    }
    if Parse(s) == Err(e, r) {
      var t := Failed(s);
    }
  }

  /** The input is these values, and then something that fails so. */
  ghost predicate Streams(s: Bytes, vs: seq<Value>, e: ParseError) {
    exists whole, t, r :: ReadsAll(whole, vs) && Fails(t, e) && FailedOn(t, t + r, e, r) && s == whole + (t + r)
  }

  lemma {:induction false} StreamReadsBack(whole: Bytes, vs: seq<Value>, rest: Bytes)
    requires ReadsAll(whole, vs) && Parse(rest).Err?
    ensures ParseStream(whole + rest) == (vs, Parse(rest).error)
    decreases |vs|
  {
    hide Parse, Reads;
    if vs == [] {
      assert whole + rest == rest;
    } else {
      var first, others :| Reads(first, vs[0]) && ReadsAll(others, vs[1..]) && whole == first + others;
      Associate(first, others, rest);
      ReadsBack(first, vs[0], others + rest);
      StreamReadsBack(others, vs[1..], rest);
      assert vs == [vs[0]] + vs[1..];
    }
  }

  lemma {:induction false} StreamSplit(s: Bytes) returns (whole: Bytes, rest: Bytes)
    ensures ReadsAll(whole, ParseStream(s).0) && s == whole + rest && Parse(rest).Err? && Parse(rest).error == ParseStream(s).1
    decreases |s|
  {
    hide Parse, Reads;
    if Parse(s).Err? {
      whole, rest := [], s;
    } else {
      var first := Accepted(s);
      var vs := ParseStream(Parse(s).rest).0;
      whole, rest := StreamSplit(Parse(s).rest);
      Associate(first, whole, rest);
      assert ([Parse(s).value] + vs)[1..] == vs;
      whole := first + whole;
    }
  }

  /** Whatever comes in is read as exactly the values it starts with in the grammar, and ends in the failure after them. */
  lemma StreamsExactly(s: Bytes, vs: seq<Value>, e: ParseError)
    ensures ParseStream(s) == (vs, e) <==> Streams(s, vs, e)
  {
    hide Parse, ParseStream, Reads, ReadsAll, Fails;
    if whole, t, r :| ReadsAll(whole, vs) && Fails(t, e) && FailedOn(t, t + r, e, r) && s == whole + (t + r) {
      FailsExactly(t + r, e, r);
      StreamReadsBack(whole, vs, t + r);
    }
    if ParseStream(s) == (vs, e) {
      var whole, rest := StreamSplit(s);
      var t := Failed(rest);
      assert rest == t + Parse(rest).rest;
    }
  }

  // ---------------------------------------------------------------- what is written

  /** The line is the numeral of `n` without a plus sign or leading zeros. */
  predicate WritesInt(line: Bytes, n: int) {
    Denotes(line, n) && Canonical(line, n)
  }

  /** `t` is the value on the wire, with its numerals as short as can be. */
  ghost predicate Writes(t: Bytes, v: Value)
    decreases v, 0
  {
    match v
    case SimpleString(s) => t == [0x2B] + s + [0x0D, 0x0A]
    case Error(s) => t == [0x2D] + s + [0x0D, 0x0A]
    case Integer(n) => exists line :: WritesInt(line, n) && t == [0x3A] + line + [0x0D, 0x0A]
    case BulkString(b) => exists line :: WritesInt(line, |b|) && t == [0x24] + line + [0x0D, 0x0A] + b + [0x0D, 0x0A]
    case NullBulk => t == [0x24, 0x2D, 0x31, 0x0D, 0x0A]
    case Array(items) => exists line, body ::
      WritesInt(line, |items|) && WritesAll(body, items) && t == [0x2A] + line + [0x0D, 0x0A] + body
    case NullArray => t == [0x2A, 0x2D, 0x31, 0x0D, 0x0A]
  }

  ghost predicate WritesAll(t: Bytes, vs: seq<Value>)
    decreases vs, 1
  {
    if vs == [] then t == []
    else exists first, rest :: Writes(first, vs[0]) && WritesAll(rest, vs[1..]) && t == first + rest
  }

  lemma MinusOneLine(tag: Byte)
    ensures Line(tag, FormatInt(-1)) == [tag, 0x2D, 0x31, 0x0D, 0x0A]
  {
    assert FormatInt(-1) == [0x2D, 0x31];
  }

  /** The writer's bytes are these and no others. */
  lemma {:induction false} WritesExactly(t: Bytes, v: Value)
    ensures Writes(t, v) <==> t == Encode(v)
    decreases v, 0
  {
    hide FormatInt, EncodeAll, WritesAll, Denotes, Canonical;
    match v
    case Integer(n) => OneNumeral(n);
    case BulkString(b) => OneNumeral(|b|);
    case NullBulk => MinusOneLine(0x24);
    case NullArray => MinusOneLine(0x2A);
    case Array(items) =>
      OneNumeral(|items|);
      forall body
        ensures WritesAll(body, items) <==> body == EncodeAll(items)
      {
        WritesAllExactly(body, items);
      }
      assert Encode(v) == [0x2A] + FormatInt(|items|) + [0x0D, 0x0A] + EncodeAll(items);
      assert WritesInt(FormatInt(|items|), |items|) && WritesAll(EncodeAll(items), items);
    case _ =>
  }

  lemma OneNumeral(n: int)
    ensures forall line :: WritesInt(line, n) <==> line == FormatInt(n)
  {
    hide FormatInt, Denotes, Canonical;
    forall line
      ensures WritesInt(line, n) <==> line == FormatInt(n)
    {
      CanonicalIsWritten(line, n);
    }
  }

  lemma {:induction false} WritesAllExactly(t: Bytes, vs: seq<Value>)
    ensures WritesAll(t, vs) <==> t == EncodeAll(vs)
    decreases vs, 1
  {
    hide Encode, Writes;
    if vs != [] {
      forall first
        ensures Writes(first, vs[0]) <==> first == Encode(vs[0])
      {
        WritesExactly(first, vs[0]);
      }
      forall rest
        ensures WritesAll(rest, vs[1..]) <==> rest == EncodeAll(vs[1..])
      {
        WritesAllExactly(rest, vs[1..]);
      }
    }
  }
}
