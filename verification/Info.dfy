/** The text that INFO answers, and when it is too long for a bulk string. */
module Info {
  import opened Bytes
  import opened Decimal
  import opened Numerals
  import opened Resp

  const ALL: Bytes := [0x61, 0x6C, 0x6C]
  const SERVER: Bytes := [0x73, 0x65, 0x72, 0x76, 0x65, 0x72]
  const MEMORY: Bytes := [0x6D, 0x65, 0x6D, 0x6F, 0x72, 0x79]
  const STATS: Bytes := [0x73, 0x74, 0x61, 0x74, 0x73]
  const KEYSPACE: Bytes := [0x6B, 0x65, 0x79, 0x73, 0x70, 0x61, 0x63, 0x65]

  const SECTIONS: set<Bytes> := {ALL, SERVER, MEMORY, STATS, KEYSPACE}

  /** The server section: version, mode, operating system, word size. */
  const SERVER_TEXT: Bytes :=
    TextBytes("# Server\r\n") + TextBytes("tokenginx_version:0.1.0-dev\r\n") + TextBytes("tokenginx_mode:standalone\r\n")
    + TextBytes("os:Linux\r\n") + TextBytes("arch_bits:64\r\n\r\n")

  /** The memory section, a heading only. */
  const MEMORY_TEXT: Bytes := TextBytes("# Memory\r\n\r\n")

  /** The stats section up to the number of keys. */
  const STATS_TEXT: Bytes := TextBytes("# Stats\r\ntotal_keys:")

  /** The keyspace section up to the number of keys. */
  const KEYSPACE_TEXT: Bytes := TextBytes("# Keyspace\r\ndb0:keys=")

  /** What stands before and after the name of a section that there is not. */
  const HASH: Bytes := TextBytes("# ")
  const UNSUPPORTED: Bytes := TextBytes(" section not supported\r\n")

  /** The part of the text for one section, if it is asked for. */
  function Part(wanted: Bytes, section: Bytes, text: Bytes): Bytes {
    if section == ALL || section == wanted then text else []
  }

  /** What a part that tells the number of keys ends with. */
  function CountText(size: int): Bytes {
    FormatInt(size) + CRLF + CRLF
  }

  function Parts(section: Bytes, size: int): Bytes {
    Part(SERVER, section, SERVER_TEXT) + Part(MEMORY, section, MEMORY_TEXT)
    + Part(STATS, section, STATS_TEXT + CountText(size)) + Part(KEYSPACE, section, KEYSPACE_TEXT + CountText(size))
  }

  /** The text for a section, the store holding `size` keys. */
  function InfoText(section: Bytes, size: int): Bytes {
    if Parts(section, size) == [] then HASH + section + UNSUPPORTED else Parts(section, size)
  }

  // ---------------------------------------------------------------- lengths

  /** The section exists, or its name can be quoted in a bulk string. */
  predicate SectionFits(section: Bytes) {
    section in SECTIONS || |section| + 26 <= MAX_BULK_SIZE
  }

  /** The only text that can be too long is the one that quotes the name of a section that there is not. */
  lemma InfoTextFits(section: Bytes, size: int)
    requires IsInt64(size)
    ensures |InfoText(section, size)| <= MAX_BULK_SIZE <==> SectionFits(section)
  {
    FormatIntLength(size);
  }
}
