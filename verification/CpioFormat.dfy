/** The "newc" archive format: how one record is laid out, and a decoder that
    follows the grammar of the Linux kernel document "initramfs buffer format"
    (cpio_archive, cpio_file, cpio_trailer and the cpio_header field table).
    Bytes are chars. */
module CpioFormat {

  const MAGIC := "070701"
  const HEADER_SIZE := 110
  const TRAILER_NAME := "TRAILER!!!"
  const NUL := '\0'
  const U32_LIMIT := 0x1_0000_0000

  type U32 = x: nat | x < U32_LIMIT

  datatype Option<+T> = None | Some(value: T)

  /** One member of an archive; filesize and namesize follow from data and name. */
  datatype Entry = Entry(
    ino: U32, mode: U32, uid: U32, gid: U32, nlink: U32, mtime: U32,
    maj: U32, min: U32, rmaj: U32, rmin: U32, chksum: U32,
    name: string, data: string)

  /** What the format can carry: sizes fit their fields, the name is a C string,
      and it is not the name that marks the end. */
  predicate Encodable(e: Entry) {
    FitsFields(e) && e.name != TRAILER_NAME
  }

  // ----- the printer

  function HexDigit(d: nat): char
    requires d < 16
  {
    "0123456789ABCDEF"[d]
  }

  /** The %08X conversion: the low digits of n, most significant first. */
  function Hex(n: nat, width: nat): (s: string)
    ensures |s| == width
  {
    if width == 0 then "" else Hex(n / 16, width - 1) + [HexDigit(n % 16)]
  }

  function HexAll(fields: seq<U32>): (s: string)
    ensures |s| == 8 * |fields|
  {
    if fields == [] then "" else Hex(fields[0], 8) + HexAll(fields[1..])
  }

  function Header(ino: U32, mode: U32, uid: U32, gid: U32, nlink: U32, mtime: U32, filesize: U32,
                  maj: U32, min: U32, rmaj: U32, rmin: U32, namesize: U32, chksum: U32): (s: string)
    ensures |s| == HEADER_SIZE
  {
    MAGIC + HexAll([ino, mode, uid, gid, nlink, mtime, filesize, maj, min, rmaj, rmin, namesize, chksum])
  }

  function Padding(pos: nat): (n: nat)
    ensures n < 4 && (pos + n) % 4 == 0
  {
    if pos % 4 == 0 then 0 else 4 - pos % 4
  }

  function Zeros(n: nat): (s: string)
    ensures |s| == n
  {
    seq(n, i => NUL)
  }

  predicate AllEncodable(es: seq<Entry>) { forall e | e in es :: Encodable(e) }

  /** A record as it is laid out from a position divisible by 4. */
  function Encode(e: Entry): (s: string)
    requires Encodable(e)
    ensures |s| % 4 == 0
  {
    HeaderOf(e) + e.name + [NUL] + Zeros(Padding(HEADER_SIZE + |e.name| + 1)) + e.data + Zeros(Padding(|e.data|))
  }

  predicate FitsFields(e: Entry) {
    NUL !in e.name && |e.name| + 1 < U32_LIMIT && |e.data| < U32_LIMIT
  }

  function HeaderOf(e: Entry): (s: string)
    requires FitsFields(e)
    ensures |s| == HEADER_SIZE
  {
    Header(e.ino, e.mode, e.uid, e.gid, e.nlink, e.mtime, |e.data|,
           e.maj, e.min, e.rmaj, e.rmin, |e.name| + 1, e.chksum)
  }

  function EncodeAll(es: seq<Entry>): (s: string)
    requires AllEncodable(es)
    ensures |s| % 4 == 0
  {
    if es == [] then "" else hide Encode, Encodable; Encode(es[0]) + EncodeAll(es[1..])
  }

  /** The record cpio_trailer writes, filled up to 512 bytes. */
  function Trailer(): string {
    Header(0, 0, 0, 0, 1, 0, 0, 0, 0, 0, 0, |TRAILER_NAME| + 1, 0)
    + TRAILER_NAME + [NUL] + Zeros(Padding(HEADER_SIZE + |TRAILER_NAME| + 1)) + Zeros(388)
  }

  // ----- the decoder

  predicate AllZero(s: string) { forall i | 0 <= i < |s| :: s[i] == NUL }

  function HexValue(c: char): Option<nat> {
    if '0' <= c <= '9' then Some((c - '0') as nat)
    else if 'A' <= c <= 'F' then Some((c - 'A') as nat + 10)
    else if 'a' <= c <= 'f' then Some((c - 'a') as nat + 10)
    else None
  }

  function ParseHex(s: string): Option<nat> {
    if s == "" then Some(0) else
    var high, low := ParseHex(s[..|s| - 1]), HexValue(s[|s| - 1]);
    if high.Some? && low.Some? then Some(16 * high.value + low.value) else None
  }

  /** The fields of a header, eight characters each. */
  function ParseFields(s: string): Option<seq<U32>> {
    if s == "" then Some([])
    else if |s| < 8 then None
    else
      var first, others := ParseHex(s[..8]), ParseFields(s[8..]);
      if first.None? || others.None? || first.value >= U32_LIMIT then None
      else Some([first.value] + others.value)
  }

  /** Cuts n bytes off the front. */
  function Split(s: string, n: nat): Option<(string, string)> {
    if n <= |s| then Some((s[..n], s[n..])) else None
  }

  /** ALGN(4) at absolute position pos: null bytes up to the next multiple of 4. */
  function Align(s: string, pos: nat): (r: Option<string>)
    ensures r.Some? ==> |r.value| + Padding(pos) == |s|
  {
    if Padding(pos) <= |s| && AllZero(s[..Padding(pos)]) then Some(s[Padding(pos)..]) else None
  }

  datatype Record = Record(entry: Entry, rest: string, pos: nat)

  /** cpio_file := ALGN(4) + cpio_header + filename + "\0" + ALGN(4) + data.
      s starts at absolute position pos of the archive. */
  function DecodeRecord(s: string, pos: nat): (r: Option<Record>)
    ensures r.Some? ==> |r.value.rest| < |s|
  {
    var aligned := Align(s, pos);
    if aligned.None? then None else
    var header := Split(aligned.value, HEADER_SIZE);
    if header.None? || header.value.0[..6] != MAGIC then None else
    var fields := ParseFields(header.value.0[6..]);
    if fields.None? || |fields.value| != 13 then None else
    DecodeBody(fields.value, header.value.1, pos + Padding(pos) + HEADER_SIZE)
  }

  /** filename + "\0" + ALGN(4) + data, with the sizes the header announced. */
  function DecodeBody(f: seq<U32>, s: string, pos: nat): (r: Option<Record>)
    requires |f| == 13
    ensures r.Some? ==> |r.value.rest| <= |s|
  {
    var filesize, namesize := f[6], f[11];
    var name := Split(s, namesize);
    if namesize == 0 || name.None? || name.value.0[namesize - 1] != NUL then None else
    var aligned := Align(name.value.1, pos + namesize);
    if NUL in name.value.0[..namesize - 1] || aligned.None? then None else
    var data := Split(aligned.value, filesize);
    if data.None? then None else
    Some(Record(EntryOf(f, name.value.0[..namesize - 1], data.value.0), data.value.1,
                pos + namesize + Padding(pos + namesize) + filesize))
  }

  /** cpio_archive := cpio_file* + (<nothing> | cpio_trailer), then null bytes only. */
  function Decode(s: string, pos: nat): Option<seq<Entry>>
    decreases |s|
  {
    if AllZero(s) then Some([]) else
    var r := DecodeRecord(s, pos);
    if r.None? then None
    else if r.value.entry.name == TRAILER_NAME then
      (if r.value.entry.data == "" && AllZero(r.value.rest) then Some([]) else None)
    else
      var others := Decode(r.value.rest, r.value.pos);
      if others.None? then None else Some([r.value.entry] + others.value)
  }

  // ----- printing and decoding cancel out

  function Pow16(k: nat): nat { if k == 0 then 1 else 16 * Pow16(k - 1) }

  lemma DigitRoundTrip(d: nat)
    requires d < 16
    ensures HexValue(HexDigit(d)) == Some(d)
  {
  }

  lemma ParseHexSnoc(high: string, d: nat)
    requires d < 16 && ParseHex(high).Some?
    ensures ParseHex(high + [HexDigit(d)]) == Some(16 * ParseHex(high).value + d)
  {
    hide HexDigit;
    DigitRoundTrip(d);
    var s := high + [HexDigit(d)];
    assert s[..|s| - 1] == high;
  }

  lemma {:induction false} HexRoundTrip(n: nat, width: nat)
    requires n < Pow16(width)
    ensures ParseHex(Hex(n, width)) == Some(n)
  {
    hide HexDigit, HexValue;
    if width > 0 {
      var high, low := n / 16, n % 16;
      HexRoundTrip(high, width - 1);
      ParseHexSnoc(Hex(high, width - 1), low);
    }
  }

  lemma {:induction false} FieldsRoundTrip(fields: seq<U32>)
    ensures ParseFields(HexAll(fields)) == Some(fields)
  {
    if fields != [] {
      assert Pow16(8) == U32_LIMIT;
      HexRoundTrip(fields[0], 8);
      FieldsRoundTrip(fields[1..]);
      var s := HexAll(fields);
      assert s[..8] == Hex(fields[0], 8) && s[8..] == HexAll(fields[1..]);
      assert fields == [fields[0]] + fields[1..];
    }
  }

  lemma {:induction false} HexAllAt(fields: seq<U32>, k: nat)
    requires k < |fields|
    ensures HexAll(fields)[8 * k..8 * k + 8] == Hex(fields[k], 8)
  {
    var rest := HexAll(fields[1..]);
    if k == 0 {
      assert HexAll(fields)[..8] == Hex(fields[0], 8);
    } else {
      HexAllAt(fields[1..], k - 1);
      assert HexAll(fields)[8 * k..8 * k + 8] == rest[8 * (k - 1)..8 * (k - 1) + 8];
    }
  }

  /** Field k of a header, as the hexadecimal number in its eight columns. */
  function Column(header: string, k: nat): Option<nat>
    requires |header| == 110 && k < 13
  {
    ParseHex(header[6 + 8 * k..14 + 8 * k])
  }

  /** The cpio_header field table: which field stands in which columns. */
  lemma HeaderColumns(e: Entry)
    requires FitsFields(e)
    ensures var h := HeaderOf(e);
      && h[..6] == "070701"
      && Column(h, 0) == Some(e.ino) && Column(h, 1) == Some(e.mode) && Column(h, 2) == Some(e.uid)
      && Column(h, 3) == Some(e.gid) && Column(h, 4) == Some(e.nlink) && Column(h, 5) == Some(e.mtime)
      && Column(h, 6) == Some(|e.data|) && Column(h, 7) == Some(e.maj) && Column(h, 8) == Some(e.min)
      && Column(h, 9) == Some(e.rmaj) && Column(h, 10) == Some(e.rmin)
      && Column(h, 11) == Some(|e.name| + 1) && Column(h, 12) == Some(e.chksum)
  {
    var h, f := HeaderOf(e), FieldsOf(e);
    assert h[..6] == MAGIC;
    forall k: nat | k < 13
      ensures Column(h, k) == Some(f[k])
    {
      HexAllAt(f, k);
      assert Pow16(8) == U32_LIMIT;
      HexRoundTrip(f[k], 8);
      assert h[6 + 8 * k..14 + 8 * k] == HexAll(f)[8 * k..8 * k + 8];
    }
  }

  lemma SplitConcat(a: string, b: string)
    ensures Split(a + b, |a|) == Some((a, b))
  {
    assert (a + b)[..|a|] == a && (a + b)[|a|..] == b;
  }

  lemma AlignZeros(pos: nat, s: string)
    ensures Align(Zeros(Padding(pos)) + s, pos) == Some(s)
  {
    SplitConcat(Zeros(Padding(pos)), s);
  }

  /** The same padding, seen from the start of a record or of its data. */
  lemma PaddingShift(start: nat, n: nat)
    requires start % 4 == 0
    ensures Padding(start + n) == Padding(n)
  {
  }

  /** A record in front of rest, without the padding that follows the data. */
  function Layout(e: Entry, rest: string): string
    requires FitsFields(e)
  {
    HeaderOf(e) + ((e.name + [NUL]) + (Zeros(Padding(HEADER_SIZE + |e.name| + 1)) + (e.data + rest)))
  }

  function FieldsOf(e: Entry): (f: seq<U32>)
    requires FitsFields(e)
    ensures |f| == 13 && HeaderOf(e) == MAGIC + HexAll(f)
  {
    [e.ino, e.mode, e.uid, e.gid, e.nlink, e.mtime, |e.data|, e.maj, e.min, e.rmaj, e.rmin, |e.name| + 1, e.chksum]
  }

  lemma HeaderRoundTrip(e: Entry)
    requires FitsFields(e)
    ensures HeaderOf(e)[..6] == MAGIC && ParseFields(HeaderOf(e)[6..]) == Some(FieldsOf(e))
  {
    var header := HeaderOf(e);
    assert header[..6] == MAGIC && header[6..] == HexAll(FieldsOf(e));
    FieldsRoundTrip(FieldsOf(e));
  }

  function EntryOf(f: seq<U32>, name: string, data: string): Entry
    requires |f| == 13
  {
    Entry(f[0], f[1], f[2], f[3], f[4], f[5], f[7], f[8], f[9], f[10], f[12], name, data)
  }

  lemma BodyRoundTrip(f: seq<U32>, name: string, data: string, rest: string, pos: nat)
    requires |f| == 13 && f[11] == |name| + 1 && f[6] == |data| && NUL !in name
    ensures var next := pos + f[11];
      DecodeBody(f, (name + [NUL]) + (Zeros(Padding(next)) + (data + rest)), pos)
      == Some(Record(EntryOf(f, name, data), rest, next + Padding(next) + f[6]))
  {
    var named, next := name + [NUL], pos + f[11];
    SplitConcat(named, Zeros(Padding(next)) + (data + rest));
    assert named[..|named| - 1] == name;
    AlignZeros(next, data + rest);
    SplitConcat(data, rest);
  }

  lemma HeaderThenBody(header: string, f: seq<U32>, body: string, pos: nat)
    requires |header| == HEADER_SIZE && header[..6] == MAGIC
    requires ParseFields(header[6..]) == Some(f) && |f| == 13
    ensures DecodeRecord(Zeros(Padding(pos)) + (header + body), pos)
         == DecodeBody(f, body, pos + Padding(pos) + HEADER_SIZE)
  {
    AlignZeros(pos, header + body);
    SplitConcat(header, body);
  }

  lemma FieldsMean(e: Entry)
    requires FitsFields(e)
    ensures var f := FieldsOf(e); f[6] == |e.data| && f[11] == |e.name| + 1 && EntryOf(f, e.name, e.data) == e
  {
    hide HeaderOf;
  }

  /** A record decodes to its entry, from any aligned position. */
  lemma RecordRoundTrip(e: Entry, pos: nat, rest: string) returns (next: nat)
    requires FitsFields(e)
    ensures DecodeRecord(Zeros(Padding(pos)) + Layout(e, rest), pos) == Some(Record(e, rest, next))
    ensures Padding(next) == Padding(|e.data|)
  {
    hide DecodeRecord, DecodeBody, ParseFields, HexAll, HeaderOf, FieldsOf, EntryOf, Zeros, Padding;
    var f := FieldsOf(e);
    FieldsMean(e);
    var start := pos + Padding(pos);
    PaddingShift(start, HEADER_SIZE + |e.name| + 1);
    HeaderRoundTrip(e);
    BodyRoundTrip(f, e.name, e.data, rest, start + HEADER_SIZE);
    HeaderThenBody(HeaderOf(e), f, (e.name + [NUL]) + (Zeros(Padding(HEADER_SIZE + |e.name| + 1)) + (e.data + rest)), pos);
    var after := start + HEADER_SIZE + |e.name| + 1;
    next := after + Padding(after) + |e.data|;
    PaddingShift(after + Padding(after), |e.data|);
  }

  /** The archive is not over where a record starts. */
  lemma RecordIsNotZero(e: Entry, pos: nat, rest: string)
    requires FitsFields(e)
    ensures !AllZero(Zeros(Padding(pos)) + Layout(e, rest))
  {
    var s := Zeros(Padding(pos)) + Layout(e, rest);
    assert s[Padding(pos)] == HeaderOf(e)[0] == '0';
  }

  /** 512 bytes that hold nothing but the record that ends an archive. */
  predicate IsEnd(s: string) {
    var r := DecodeRecord(s, 0);
    |s| == 512 && s[..6] == "070701" && r.Some? && r.value.rest == Zeros(388)
      && r.value.entry == Entry(ino := 0, mode := 0, uid := 0, gid := 0, nlink := 1, mtime := 0, maj := 0, min := 0,
                                rmaj := 0, rmin := 0, chksum := 0, name := "TRAILER!!!", data := "")
  }

  lemma TrailerLayout() returns (e: Entry)
    ensures e == Entry(0, 0, 0, 0, 1, 0, 0, 0, 0, 0, 0, "TRAILER!!!", "")
    ensures Trailer() == Layout(e, Zeros(388)) && |Trailer()| == 512 && Trailer()[..6] == "070701"
  {
    e := Entry(0, 0, 0, 0, 1, 0, 0, 0, 0, 0, 0, TRAILER_NAME, "");
    assert Trailer()[..6] == MAGIC;
  }

  lemma TrailerIsEnd()
    ensures IsEnd(Trailer())
  {
    var e := TrailerLayout();
    hide Trailer, DecodeRecord, Layout;
    var _ := RecordRoundTrip(e, 0, Zeros(388));
    assert Zeros(Padding(0)) + Trailer() == Trailer();
  }

  /** The trailer ends an archive at any position. */
  lemma TrailerDecodes(pos: nat)
    ensures Decode(Zeros(Padding(pos)) + Trailer(), pos) == Some([])
  {
    var e := TrailerLayout();
    hide Trailer, DecodeRecord, Layout;
    var _ := RecordRoundTrip(e, pos, Zeros(388));
    RecordIsNotZero(e, pos, Zeros(388));
  }

  lemma EncodeLayout(e: Entry, tail: string)
    requires Encodable(e)
    ensures Encode(e) + tail == Layout(e, Zeros(Padding(|e.data|)) + tail)
  {
  }

  lemma DecodeCons(s: string, pos: nat, r: Record, es: seq<Entry>)
    requires !AllZero(s) && DecodeRecord(s, pos) == Some(r) && r.entry.name != TRAILER_NAME
    requires Decode(r.rest, r.pos) == Some(es)
    ensures Decode(s, pos) == Some([r.entry] + es)
  {
  }

  /** Decoding resumes right behind a record's data, before its padding. The end is
      the trailer or nothing. */
  lemma {:induction false} DecodeEncoded(es: seq<Entry>, end: string, pos: nat)
    requires AllEncodable(es) && (end == "" || end == Trailer())
    ensures Decode(Zeros(Padding(pos)) + (EncodeAll(es) + end), pos) == Some(es)
  {
    hide DecodeRecord, Decode, Trailer, Layout, Encode;
    if es == [] {
      assert EncodeAll(es) + end == end;
      if end == Trailer() {
        TrailerDecodes(pos);
      } else {
        NothingDecodes(pos);
      }
    } else {
      var e, tail := es[0], EncodeAll(es[1..]) + end;
      var rest := Zeros(Padding(|e.data|)) + tail;
      EncodeLayout(e, tail);
      assert EncodeAll(es) + end == Layout(e, rest);
      var next := RecordRoundTrip(e, pos, rest);
      RecordIsNotZero(e, pos, rest);
      DecodeEncoded(es[1..], end, next);
      DecodeCons(Zeros(Padding(pos)) + Layout(e, rest), pos, Record(e, rest, next), es[1..]);
      assert es == [e] + es[1..];
    }
  }

  lemma NothingDecodes(pos: nat)
    ensures Decode(Zeros(Padding(pos)) + "", pos) == Some([])
  {
    assert AllZero(Zeros(Padding(pos)) + "");
  }

  /** Whatever entries are printed, one record after the other, the decoder finds
      exactly them, in that order, with the trailer at the end or without it. */
  lemma RoundTrip(es: seq<Entry>)
    requires AllEncodable(es)
    ensures Decode(EncodeAll(es) + Trailer(), 0) == Some(es)
    ensures Decode(EncodeAll(es), 0) == Some(es)
  {
    hide Decode, Trailer;
    DecodeEncoded(es, Trailer(), 0);
    DecodeEncoded(es, "", 0);
    assert Zeros(Padding(0)) + (EncodeAll(es) + Trailer()) == EncodeAll(es) + Trailer();
    assert Zeros(Padding(0)) + (EncodeAll(es) + "") == EncodeAll(es);
  }

  lemma {:induction false} EncodeAllConcat(es: seq<Entry>, fs: seq<Entry>)
    requires AllEncodable(es) && AllEncodable(fs)
    ensures AllEncodable(es + fs) && EncodeAll(es + fs) == EncodeAll(es) + EncodeAll(fs)
  {
    hide Encode, Encodable;
    if es == [] {
      assert es + fs == fs;
    } else {
      EncodeAllConcat(es[1..], fs);
      EncodeAllCons(es[0], es[1..] + fs);
      assert es + fs == [es[0]] + (es[1..] + fs);
    }
  }

  lemma EncodeAllCons(e: Entry, es: seq<Entry>)
    requires Encodable(e) && AllEncodable(es)
    ensures AllEncodable([e] + es) && EncodeAll([e] + es) == Encode(e) + EncodeAll(es)
  {
    assert ([e] + es)[1..] == es;
  }
}
