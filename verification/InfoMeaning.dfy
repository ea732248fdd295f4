/** What INFO tells, character by character, and for which sections. */
module InfoMeaning {
  import opened Bytes
  import opened Decimal
  import opened Numerals
  import opened Resp
  import opened TimedMap
  import opened Commands
  import opened CommandMeaning
  import opened Info

  const SERVER_SAYS: string :=
    "# Server\r\n" + "tokenginx_version:0.1.0-dev\r\n" + "tokenginx_mode:standalone\r\n" + "os:Linux\r\n" + "arch_bits:64\r\n\r\n"

  /** The text of the sections that a name asks for; `size` is the number of keys in decimal. */
  function Sections(name: Bytes, size: string): string {
    (if Asked(name, "SERVER") then SERVER_SAYS else "")
    + (if Asked(name, "MEMORY") then "# Memory\r\n\r\n" else "")
    + (if Asked(name, "STATS") then "# Stats\r\ntotal_keys:" + size + "\r\n\r\n" else "")
    + (if Asked(name, "KEYSPACE") then "# Keyspace\r\ndb0:keys=" + size + "\r\n\r\n" else "")
  }

  /** The name is that of the section, or ALL, in any letter case. */
  predicate Asked(name: Bytes, section: string) {
    Word(name, section) || Word(name, "ALL")
  }

  predicate AskedAny(name: Bytes) {
    Asked(name, "SERVER") || Asked(name, "MEMORY") || Asked(name, "STATS") || Asked(name, "KEYSPACE")
  }

  /** The bytes with capital letters made small. */
  predicate Lowered(s: Bytes, lower: Bytes) {
    |lower| == |s| &&
    forall i :: 0 <= i < |s| ==> lower[i] as int == if 0x41 <= s[i] as int <= 0x5A then s[i] as int + 0x20 else s[i] as int
  }

  // ---------------------------------------------------------------- words in small letters

  lemma LowerIs(b: Byte, c: Byte)
    requires 0x61 <= c as int <= 0x7A
    ensures LowerByte(b) == c <==> b as int == c as int || b as int == c as int - 0x20
  {
  }

  /** `name` is the word in small letters. */
  predicate SpellsSmall(name: Bytes, word: string) {
    |name| == |word| && forall i :: 0 <= i < |name| ==> name[i] as int == word[i] as int + 0x20
  }

  lemma WordIsLower(s: Bytes, name: Bytes, word: string)
    requires SpellsSmall(name, word) && Capitals(word)
    ensures Word(s, word) <==> ToLower(s) == name
  {
    if |s| == |name| {
      forall i | 0 <= i < |s|
        ensures ToLower(s)[i] == name[i] <==> s[i] as int == word[i] as int || s[i] as int == word[i] as int + 0x20
      {
        LowerIs(s[i], name[i]);
      }
    }
  }

  lemma SectionNames()
    ensures SpellsSmall(ALL, "ALL") && SpellsSmall(SERVER, "SERVER") && SpellsSmall(MEMORY, "MEMORY")
    ensures SpellsSmall(STATS, "STATS") && SpellsSmall(KEYSPACE, "KEYSPACE")
  {
  }

  lemma AskedIs(s: Bytes)
    ensures Asked(s, "SERVER") <==> ToLower(s) == ALL || ToLower(s) == SERVER
    ensures Asked(s, "MEMORY") <==> ToLower(s) == ALL || ToLower(s) == MEMORY
    ensures Asked(s, "STATS") <==> ToLower(s) == ALL || ToLower(s) == STATS
    ensures Asked(s, "KEYSPACE") <==> ToLower(s) == ALL || ToLower(s) == KEYSPACE
  {
    hide Word, ToLower, SpellsSmall;
    SectionNames();
    WordIsLower(s, ALL, "ALL");
    WordIsLower(s, SERVER, "SERVER");
    WordIsLower(s, MEMORY, "MEMORY");
    WordIsLower(s, STATS, "STATS");
    WordIsLower(s, KEYSPACE, "KEYSPACE");
  }

  lemma LoweredIs(s: Bytes)
    ensures Lowered(s, ToLower(s))
  {
    forall i | 0 <= i < |s|
      ensures ToLower(s)[i] as int == if 0x41 <= s[i] as int <= 0x5A then s[i] as int + 0x20 else s[i] as int
    {
      LowerValue(s[i]);
    }
  }

  lemma LowerValue(b: Byte)
    ensures LowerByte(b) as int == if 0x41 <= b as int <= 0x5A then b as int + 0x20 else b as int
  {
  }

  // ---------------------------------------------------------------- texts

  lemma SpellsBoth(s: Bytes, t: Bytes, v: string, w: string)
    requires Spells(s, v) && Spells(t, w)
    ensures Spells(s + t, v + w)
  {
  }

  predicate Ascii(w: string) {
    forall i :: 0 <= i < |w| ==> w[i] as int < 0x80
  }

  lemma TextSpells(w: string)
    requires Ascii(w)
    ensures Spells(TextBytes(w), w)
  {
    forall i | 0 <= i < |w|
      ensures TextBytes(w)[i] as int == w[i] as int
    {
      ByteAtIndex(w[i] as int);
    }
  }

  lemma ServerText()
    ensures Spells(SERVER_TEXT, SERVER_SAYS)
  {
    hide Spells, TextBytes;
    TextSpells("# Server\r\n");
    TextSpells("tokenginx_version:0.1.0-dev\r\n");
    TextSpells("tokenginx_mode:standalone\r\n");
    TextSpells("os:Linux\r\n");
    TextSpells("arch_bits:64\r\n\r\n");
    var b1, w1 := TextBytes("# Server\r\n"), "# Server\r\n";
    var b2, w2 := TextBytes("tokenginx_version:0.1.0-dev\r\n"), "tokenginx_version:0.1.0-dev\r\n";
    var b3, w3 := TextBytes("tokenginx_mode:standalone\r\n"), "tokenginx_mode:standalone\r\n";
    var b4, w4 := TextBytes("os:Linux\r\n"), "os:Linux\r\n";
    SpellsBoth(b1, b2, w1, w2);
    SpellsBoth(b1 + b2, b3, w1 + w2, w3);
    SpellsBoth(b1 + b2 + b3, b4, w1 + w2 + w3, w4);
    SpellsBoth(b1 + b2 + b3 + b4, TextBytes("arch_bits:64\r\n\r\n"), w1 + w2 + w3 + w4, "arch_bits:64\r\n\r\n");
  }

  lemma OtherTexts()
    ensures Spells(MEMORY_TEXT, "# Memory\r\n\r\n") && Spells(STATS_TEXT, "# Stats\r\ntotal_keys:")
    ensures Spells(KEYSPACE_TEXT, "# Keyspace\r\ndb0:keys=") && Spells(CRLF + CRLF, "\r\n\r\n")
  {
    hide TextBytes;
    TextSpells("# Memory\r\n\r\n");
    TextSpells("# Stats\r\ntotal_keys:");
    TextSpells("# Keyspace\r\ndb0:keys=");
  }

  lemma NoticeTexts()
    ensures Spells(HASH, "# ") && Spells(UNSUPPORTED, " section not supported\r\n")
  {
    hide TextBytes;
    TextSpells("# ");
    TextSpells(" section not supported\r\n");
  }

  // ---------------------------------------------------------------- INFO

  /** The characters of the digits. */
  function Characters(d: Bytes): string {
    seq(|d|, i requires 0 <= i < |d| => (d[i] as int) as char)
  }

  lemma CharactersSpell(d: Bytes)
    ensures Spells(d, Characters(d))
  {
    forall i | 0 <= i < |d|
      ensures d[i] as int == Characters(d)[i] as int
    {
      assert d[i] as int < 256;
    }
  }

  lemma CountSpells(text: Bytes, w: string, n: int)
    requires Spells(text, w)
    ensures Spells(text + CountText(n), w + Characters(FormatInt(n)) + "\r\n\r\n")
  {
    hide Spells, FormatInt, Characters;
    var d := FormatInt(n);
    OtherTexts();
    CharactersSpell(d);
    SpellsBoth(text, d, w, Characters(d));
    SpellsBoth(text + d, CRLF + CRLF, w + Characters(d), "\r\n\r\n");
    assert text + CountText(n) == text + d + (CRLF + CRLF);
  }

  lemma PartSpells(wanted: Bytes, section: Bytes, text: Bytes, w: string)
    requires Spells(text, w)
    ensures Spells(Part(wanted, section, text), if section == ALL || section == wanted then w else "")
  {
  }

  /** The parts, one after another, are the sections asked for. */
  lemma PartsSpell(name: Bytes, n: int)
    ensures Spells(Parts(ToLower(name), n), Sections(name, Characters(FormatInt(n))))
  {
    hide Spells, Part, ToLower, Asked, FormatInt, Characters, CountText;
    hide ALL, SERVER, MEMORY, STATS, KEYSPACE, SERVER_SAYS, SERVER_TEXT, MEMORY_TEXT, STATS_TEXT, KEYSPACE_TEXT;
    var section, w := ToLower(name), Characters(FormatInt(n));
    AskedIs(name);
    ServerText();
    OtherTexts();
    CountSpells(STATS_TEXT, "# Stats\r\ntotal_keys:", n);
    CountSpells(KEYSPACE_TEXT, "# Keyspace\r\ndb0:keys=", n);
    var p1, w1 := Part(SERVER, section, SERVER_TEXT), if Asked(name, "SERVER") then SERVER_SAYS else "";
    var p2, w2 := Part(MEMORY, section, MEMORY_TEXT), if Asked(name, "MEMORY") then "# Memory\r\n\r\n" else "";
    var p3 := Part(STATS, section, STATS_TEXT + CountText(n));
    var w3 := if Asked(name, "STATS") then "# Stats\r\ntotal_keys:" + w + "\r\n\r\n" else "";
    var p4 := Part(KEYSPACE, section, KEYSPACE_TEXT + CountText(n));
    var w4 := if Asked(name, "KEYSPACE") then "# Keyspace\r\ndb0:keys=" + w + "\r\n\r\n" else "";
    PartSpells(SERVER, section, SERVER_TEXT, SERVER_SAYS);
    PartSpells(MEMORY, section, MEMORY_TEXT, "# Memory\r\n\r\n");
    PartSpells(STATS, section, STATS_TEXT + CountText(n), "# Stats\r\ntotal_keys:" + w + "\r\n\r\n");
    PartSpells(KEYSPACE, section, KEYSPACE_TEXT + CountText(n), "# Keyspace\r\ndb0:keys=" + w + "\r\n\r\n");
    SpellsBoth(p1, p2, w1, w2);
    SpellsBoth(p1 + p2, p3, w1 + w2, w3);
    SpellsBoth(p1 + p2 + p3, p4, w1 + w2 + w3, w4);
  }

  lemma NoParts(name: Bytes, n: int)
    ensures Parts(ToLower(name), n) == [] <==> !AskedAny(name)
  {
    hide ToLower, Asked, FormatInt;
    AskedIs(name);
    assert |SERVER_TEXT| > 0 && |MEMORY_TEXT| > 0 && |STATS_TEXT| > 0 && |KEYSPACE_TEXT| > 0;
  }

  /** The text is that of the sections asked for, or says that there is no such section. */
  predicate Tells(t: Bytes, name: Bytes, size: string) {
    if AskedAny(name) then Spells(t, Sections(name, size))
    else
      |t| == |name| + 26 && Spells(t[..2], "# ") && Lowered(name, t[2..|name| + 2])
      && Spells(t[|name| + 2..], " section not supported\r\n")
  }

  lemma InfoTextTells(name: Bytes, n: int)
    ensures Tells(InfoText(ToLower(name), n), name, Characters(FormatInt(n)))
  {
    hide Spells, ToLower, Parts, AskedAny, Sections, FormatInt, Characters, Lowered;
    PartsSpell(name, n);
    NoParts(name, n);
    NoticeTexts();
    LoweredIs(name);
    if !AskedAny(name) {
      var t := HASH + ToLower(name) + UNSUPPORTED;
      LowerLength(name);
      assert t[..2] == HASH && t[2..|name| + 2] == ToLower(name) && t[|name| + 2..] == UNSUPPORTED;
    }
  }

  lemma LowerLength(s: Bytes)
    ensures |ToLower(s)| == |s|
  {
  }

  /**
   INFO tells the sections asked for, all of them without an argument, with the number of stored keys in decimal; it
   quotes the name of a section that there is not in small letters.
   */
  lemma InfoMeans(m: Items, cmd: Value, clock: Clock)
    requires Calls(cmd, "INFO") && |m| <= 0x7FFF_FFFF_FFFF_FFFF
    ensures var (r, m') := Interpret(m, cmd, clock);
            && m' == m
            && if Args(cmd) == [] || Text(Args(cmd)[0]).Some? then
                 && r.Is? && r.value.BulkString?
                 && var name := if Args(cmd) == [] then [0x41, 0x4C, 0x4C] else Text(Args(cmd)[0]).value;
                    exists d :: Denotes(d, |m|) && Canonical(d, |m|) && Tells(r.value.bulk, name, Characters(d))
               else Refused(r)
  {
    hide Word, Spells, InfoText, Tells, FormatInt, Denotes, Canonical, Characters;
    OtherNames();
    CallsIsName(cmd, INFO, "INFO");
    FormatIntExactly(|m|);
    var args := Args(cmd);
    var name := if args == [] then [0x41, 0x4C, 0x4C] else Bulk(args[0]);
    InfoTextTells(name, |m|);
    assert ToLower([0x41, 0x4C, 0x4C]) == ALL;
  }
}
