/**
 * The byte-order-mark sniffer that picks the text encoding of a snapshot file from its first 64 bytes.
 * The host's native UTF-16 mark (codecs.BOM_UTF16) is fixed to the little-endian FF FE.
 */
module Encoding {

  datatype Bom = Bom(mark: seq<bv8>, encoding: string)

  const ReadLimit := 64
  const DefaultEncoding := "utf-8"

  const Utf8Mark: seq<bv8> := [0xEF, 0xBB, 0xBF]
  const Utf16NativeMark: seq<bv8> := [0xFF, 0xFE]
  const Utf32BeMark: seq<bv8> := [0x00, 0x00, 0xFE, 0xFF]
  const Utf32LeMark: seq<bv8> := [0xFF, 0xFE, 0x00, 0x00]
  const Utf16BeMark: seq<bv8> := [0xFE, 0xFF]
  const Utf16LeMark: seq<bv8> := [0xFF, 0xFE]

  /** The mark table in the order the sniffer tries it. */
  const Boms: seq<Bom> := [
    Bom(Utf8Mark, "utf-8"),
    Bom(Utf16NativeMark, "utf-16"),
    Bom(Utf32BeMark, "utf-32be"),
    Bom(Utf32LeMark, "utf-32le"),
    Bom(Utf16BeMark, "utf-16be"),
    Bom(Utf16LeMark, "utf-16le")
  ]

  predicate StartsWith(s: seq<bv8>, prefix: seq<bv8>)
  {
    |prefix| <= |s| && s[..|prefix|] == prefix
  }

  /** The bytes one read of at most 64 bytes returns. */
  function Leading(file: seq<bv8>): (h: seq<bv8>)
    ensures |h| == (if |file| < ReadLimit then |file| else ReadLimit)
    ensures h == file[..|h|]
  {
    if |file| <= ReadLimit then file else file[..ReadLimit]
  }

  /** The encodings, in table order, of every entry whose mark starts the given bytes. */
  function Matches(table: seq<Bom>, head: seq<bv8>): seq<string>
  {
    if table == [] then []
    else (if StartsWith(head, table[0].mark) then [table[0].encoding] else []) + Matches(table[1..], head)
  }

  /** The first match, or UTF-8 when nothing matches. */
  function Sniff(table: seq<Bom>, file: seq<bv8>): string
  {
    var m := Matches(table, Leading(file));
    if m != [] then m[0] else DefaultEncoding
  }

  /** get_encoding: UTF-8, or the encoding of a table entry whose mark starts the file's first 64 bytes. */
  function GetEncoding(file: seq<bv8>): (r: string)
    ensures r == DefaultEncoding || exists i :: 0 <= i < |Boms| && Boms[i].encoding == r && StartsWith(Leading(file), Boms[i].mark)
  {
    var m := Matches(Boms, Leading(file));
    MatchesSound(Boms, Leading(file));
    assert m != [] ==> m[0] in m;
    Sniff(Boms, file)
  }

  /** Every encoding listed as a match belongs to an entry whose mark starts the bytes. */
  lemma {:induction false} MatchesSound(table: seq<Bom>, head: seq<bv8>)
    ensures forall e :: e in Matches(table, head) ==>
              exists i :: 0 <= i < |table| && table[i].encoding == e && StartsWith(head, table[i].mark)
  {
    if table != [] {
      MatchesSound(table[1..], head);
      forall e | e in Matches(table, head)
        ensures exists i :: 0 <= i < |table| && table[i].encoding == e && StartsWith(head, table[i].mark)
      {
        if !(StartsWith(head, table[0].mark) && e == table[0].encoding) {
          assert e in Matches(table[1..], head);
          var k :| 0 <= k < |table[1..]| && table[1..][k].encoding == e && StartsWith(head, table[1..][k].mark);
          assert table[k + 1] == table[1..][k];
        }
      }
    }
  }

  predicate FirstMatchAt(table: seq<Bom>, head: seq<bv8>, i: int)
  {
    && 0 <= i < |table|
    && StartsWith(head, table[i].mark)
    && forall j :: 0 <= j < i ==> !StartsWith(head, table[j].mark)
  }

  lemma {:induction false} MatchesFirst(table: seq<Bom>, head: seq<bv8>, i: int)
    requires FirstMatchAt(table, head, i)
    ensures Matches(table, head) != [] && Matches(table, head)[0] == table[i].encoding
  {
    if i > 0 {
      assert !StartsWith(head, table[0].mark);
      MatchesFirst(table[1..], head, i - 1);
    }
  }

  lemma {:induction false} MatchesNone(table: seq<Bom>, head: seq<bv8>)
    requires forall j :: 0 <= j < |table| ==> !StartsWith(head, table[j].mark)
    ensures Matches(table, head) == []
  {
    if table != [] {
      assert !StartsWith(head, table[0].mark);
      MatchesNone(table[1..], head);
    }
  }

  /** The sniffer answers the encoding of the first entry, in table order, whose mark starts the
      file's first 64 bytes, and UTF-8 when no mark does. */
  lemma SniffSpec(table: seq<Bom>, file: seq<bv8>)
    ensures forall i :: FirstMatchAt(table, Leading(file), i) ==> Sniff(table, file) == table[i].encoding
    ensures (forall j :: 0 <= j < |table| ==> !StartsWith(Leading(file), table[j].mark)) ==>
              Sniff(table, file) == DefaultEncoding
  {
    forall i | FirstMatchAt(table, Leading(file), i)
      ensures Sniff(table, file) == table[i].encoding
    {
      MatchesFirst(table, Leading(file), i);
    }
    if forall j :: 0 <= j < |table| ==> !StartsWith(Leading(file), table[j].mark) {
      MatchesNone(table, Leading(file));
    }
  }

  /** With FF FE as the native UTF-16 mark, the utf-16 entry shadows both little-endian entries. */
  lemma NoLittleEndianAnswer(file: seq<bv8>)
    ensures GetEncoding(file) != "utf-32le" && GetEncoding(file) != "utf-16le"
  {
    var h := Leading(file);
    SniffSpec(Boms, file);
    if StartsWith(h, Utf8Mark) {
      assert FirstMatchAt(Boms, h, 0);
    } else if StartsWith(h, Utf16NativeMark) {
      assert FirstMatchAt(Boms, h, 1);
    } else if StartsWith(h, Utf32BeMark) {
      assert FirstMatchAt(Boms, h, 2);
    } else {
      if StartsWith(h, Utf16BeMark) {
        assert FirstMatchAt(Boms, h, 4);
      } else {
        assert forall j :: 0 <= j < |Boms| ==> !StartsWith(h, Boms[j].mark);
      }
    }
  }

  /** The mark of the first entry that answers the given encoding (empty for the default). */
  function MarkOf(table: seq<Bom>, encoding: string): seq<bv8>
  {
    if table == [] then []
    else if table[0].encoding == encoding then table[0].mark
    else MarkOf(table[1..], encoding)
  }

  /** As written, a UTF-32-LE file is read as UTF-16: a longer matching mark loses to a shorter one. */
  lemma Utf32LeFileReadAsUtf16()
    ensures GetEncoding([0xFF, 0xFE, 0x00, 0x00]) == "utf-16"
    ensures StartsWith(Leading([0xFF, 0xFE, 0x00, 0x00]), Boms[3].mark)
    ensures |MarkOf(Boms, GetEncoding([0xFF, 0xFE, 0x00, 0x00]))| < |Boms[3].mark|
  {
    var f: seq<bv8> := [0xFF, 0xFE, 0x00, 0x00];
    assert Leading(f) == f;
    assert f[..2] == Utf16NativeMark;
    assert f[..3] != Utf8Mark by { assert f[0] != Utf8Mark[0]; }
    assert FirstMatchAt(Boms, f, 1);
    SniffSpec(Boms, f);
  }

  /** The table with the four-byte marks tried before the two-byte marks they extend. */
  const IntendedBoms: seq<Bom> := [
    Bom(Utf8Mark, "utf-8"),
    Bom(Utf32BeMark, "utf-32be"),
    Bom(Utf32LeMark, "utf-32le"),
    Bom(Utf16NativeMark, "utf-16"),
    Bom(Utf16BeMark, "utf-16be"),
    Bom(Utf16LeMark, "utf-16le")
  ]

  function GetEncodingIntended(file: seq<bv8>): string
  {
    Sniff(IntendedBoms, file)
  }

  /** Every encoding of the intended table is answered by its own entry's mark. */
  lemma IntendedMarks()
    ensures forall i :: 0 <= i < |IntendedBoms| ==> MarkOf(IntendedBoms, IntendedBoms[i].encoding) == IntendedBoms[i].mark
  {
    assert MarkOf(IntendedBoms[5..], "utf-16le") == Utf16LeMark;
    assert MarkOf(IntendedBoms[4..], "utf-16be") == Utf16BeMark;
    assert MarkOf(IntendedBoms[3..], "utf-16") == Utf16NativeMark;
    assert MarkOf(IntendedBoms[2..], "utf-32le") == Utf32LeMark;
    assert MarkOf(IntendedBoms[1..], "utf-32be") == Utf32BeMark;
    assert MarkOf(IntendedBoms[4..], "utf-16le") == Utf16LeMark;
    assert MarkOf(IntendedBoms[3..], "utf-16le") == Utf16LeMark;
    assert MarkOf(IntendedBoms[3..], "utf-16be") == Utf16BeMark;
    assert MarkOf(IntendedBoms[2..], "utf-16le") == Utf16LeMark;
    assert MarkOf(IntendedBoms[2..], "utf-16be") == Utf16BeMark;
    assert MarkOf(IntendedBoms[2..], "utf-16") == Utf16NativeMark;
    assert MarkOf(IntendedBoms[1..], "utf-16le") == Utf16LeMark;
    assert MarkOf(IntendedBoms[1..], "utf-16be") == Utf16BeMark;
    assert MarkOf(IntendedBoms[1..], "utf-16") == Utf16NativeMark;
    assert MarkOf(IntendedBoms[1..], "utf-32le") == Utf32LeMark;
  }

  /** The answer is the first matching entry's, so its mark wins once no later matching mark is longer. */
  lemma AnswerFromFirst(file: seq<bv8>, i: int)
    requires FirstMatchAt(IntendedBoms, Leading(file), i)
    requires forall j :: i < j < |IntendedBoms| && StartsWith(Leading(file), IntendedBoms[j].mark) ==>
               |IntendedBoms[j].mark| <= |IntendedBoms[i].mark|
    ensures forall j :: 0 <= j < |IntendedBoms| && StartsWith(Leading(file), IntendedBoms[j].mark) ==>
              |IntendedBoms[j].mark| <= |MarkOf(IntendedBoms, GetEncodingIntended(file))|
  {
    SniffSpec(IntendedBoms, file);
    IntendedMarks();
  }

  /** With the intended order the answer's mark is at least as long as every mark that matches. */
  lemma IntendedPrefersLongestMark(file: seq<bv8>)
    ensures forall j :: 0 <= j < |IntendedBoms| && StartsWith(Leading(file), IntendedBoms[j].mark) ==>
              |IntendedBoms[j].mark| <= |MarkOf(IntendedBoms, GetEncodingIntended(file))|
  {
    var h := Leading(file);
    if StartsWith(h, Utf8Mark) {
      forall j | 0 < j < |IntendedBoms| && StartsWith(h, IntendedBoms[j].mark)
        ensures |IntendedBoms[j].mark| <= |Utf8Mark|
      {
        assert h[0] == Utf8Mark[0] && h[0] == IntendedBoms[j].mark[0];
      }
      AnswerFromFirst(file, 0);
    } else if StartsWith(h, Utf32BeMark) {
      AnswerFromFirst(file, 1);
    } else if StartsWith(h, Utf32LeMark) {
      AnswerFromFirst(file, 2);
    } else if StartsWith(h, Utf16NativeMark) {
      AnswerFromFirst(file, 3);
    } else if StartsWith(h, Utf16BeMark) {
      AnswerFromFirst(file, 4);
    } else {
      SniffSpec(IntendedBoms, file);
      assert forall j :: 0 <= j < |IntendedBoms| ==> !StartsWith(h, IntendedBoms[j].mark);
    }
  }
}
