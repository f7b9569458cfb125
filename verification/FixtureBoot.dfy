/** The archive the script generates is one the server accepts at start-up. */
module FixtureBoot {
  import opened Bits
  import opened Newc
  import opened NewcWriter
  import opened NewcRoundTrip
  import opened RomServer

  const RELEASE_DATA: seq<U8> := [0x53, 0x45, 0x4c, 0x49, 0x4e, 0x4f, 0x53, 0x21]  // "SELINOS!"
  const BANNER_DATA: seq<U8> := [0x43, 0x50, 0x49, 0x4f, 0x2d, 0x4f, 0x4b, 0x21]   // "CPIO-OK!"
  const VERSION_DATA: seq<U8> := [0x53, 0x45, 0x4c, 0x49, 0x4e, 0x4f, 0x53, 0x39]  // "SELINOS9"

  /** The files the script embeds. */
  const EMBEDDED: seq<(string, seq<U8>)> :=
    [("/selinos-release", RELEASE_DATA), ("/selinos-banner", BANNER_DATA), ("/selinos-version", VERSION_DATA)]

  lemma PathsEncode()
    ensures Ascii("/selinos-release") && Encode("/selinos-release") == RELEASE_PATH
    ensures Ascii("/selinos-banner") && Encode("/selinos-banner") == BANNER_PATH
    ensures Ascii("/selinos-version") && Encode("/selinos-version") == VERSION_PATH
  {
  }

  lemma MagicWords()
    ensures BigEndian(RELEASE_DATA) == RELEASE_MAGIC
    ensures BigEndian(BANNER_DATA) == BANNER_MAGIC
    ensures BigEndian(VERSION_DATA) == VERSION_MAGIC
  {
    BigEndianEight(RELEASE_DATA);
    BigEndianEight(BANNER_DATA);
    BigEndianEight(VERSION_DATA);
  }

  /** The generated archive passes the server's self check: every embedded file is
      found, has the declared length, and packs to its declared magic word. */
  lemma FixturePassesSelfCheck()
    ensures AllPrintable(FixtureFiles(EMBEDDED))
    ensures SelfChecked(Archive(FixtureFiles(EMBEDDED)))
  {
    var fs := FixtureFiles(EMBEDDED);
    PathsEncode();
    MagicWords();
    FixtureFacts();
    hide Lookup, Archive, BigEndian, Encode, And, ReadReply, FixtureFiles, Ascii;
    EmbeddedFound(fs, 0, RELEASE);
    EmbeddedFound(fs, 1, BANNER);
    EmbeddedFound(fs, 2, VERSION);
  }

  lemma FixtureFacts()
    ensures var fs := FixtureFiles(EMBEDDED);
            && Storable(fs) && |fs| == 3
            && fs[0] == File(1, 0x81a4, "/selinos-release", RELEASE_DATA)
            && fs[1] == File(2, 0x81a4, "/selinos-banner", BANNER_DATA)
            && fs[2] == File(3, 0x81a4, "/selinos-version", VERSION_DATA)
            && fs[0].name != fs[1].name && fs[0].name != fs[2].name && fs[1].name != fs[2].name
  {
    PathsEncode();
    hide Encode;
    assert "/selinos-release"[9] == 'r' && "/selinos-banner"[9] == 'b' && "/selinos-version"[9] == 'v';
    assert TRAILER_NAME[0] == 'T';
  }

  lemma EmbeddedFound(fs: seq<File>, i: nat, f: RomFile)
    requires Storable(fs) && |fs| + 1 < WRAP32 && i < |fs| && i < 16
    requires f.pathname == Encode(fs[i].name)
    requires forall k :: 0 <= k < i ==> fs[k].name != fs[i].name
    requires fs[i].mode / 0x1000 % 16 == 8
    requires |fs[i].data| == f.expected == 8 && BigEndian(fs[i].data) == MagicOf(f)
    ensures ReadReply(Archive(fs), Some(f)) == [OK, f.reported, MagicOf(f)]
  {
    hide Lookup, Archive, BigEndian, Encode, And, FirstNamed, MagicOf, Payload;
    RoundTrip(fs, fs[i].name);
    assert FirstNamed(fs, fs[i].name) == i;
    var e := Lookup(Archive(fs), f.pathname).value;
    assert |Archive(fs)[e.start..e.start + e.size]| == e.size;
  }
}
