/** The record writers of gen_init_cpio.c: a rewindable temporary file with its
    running offset, the push_* primitives, and one handler for each kind of line.
    Every handler is proved against EntriesOf, which says what a line stands for. */
module CpioWriter {
  import opened CpioFormat

  // ----- what a line asks for

  /** What opening, stat-ing and reading the location of a file line gave. */
  datatype Source = Unreadable | Contents(data: string, mtime: U32)

  datatype Kind = Dir | Pipe | Sock

  /** The text of a file line behind its keyword, and the tokens in it. extra
      holds the tokens that follow the gid. */
  datatype FileLine = FileLine(text: string, name: string, location: string, modeText: string,
                               uidText: string, gidText: string, extra: seq<string>)

  datatype Command =
    | File(line: FileLine, source: Source, mode: bv32, uid: U32, gid: U32)
    | Node(name: string, mode: bv32, uid: U32, gid: U32, devType: char, maj: U32, min: U32)
    | Generic(kind: Kind, name: string, mode: bv32, uid: U32, gid: U32)
    | Slink(name: string, target: string, mode: bv32, uid: U32, gid: U32)

  const S_IFIFO: bv32 := 0x1000
  const S_IFCHR: bv32 := 0x2000
  const S_IFDIR: bv32 := 0x4000
  const S_IFBLK: bv32 := 0x6000
  const S_IFREG: bv32 := 0x8000
  const S_IFLNK: bv32 := 0xA000
  const S_IFSOCK: bv32 := 0xC000
  const PATH_MAX := 4096
  const LINE_SIZE := 2 * PATH_MAX + 50

  function KindMode(k: Kind): bv32 {
    match k case Dir => S_IFDIR case Pipe => S_IFIFO case Sock => S_IFSOCK
  }

  /** The permission bits of a line with the type bits of its kind. */
  function Typed(fileType: bv32, mode: bv32): U32 { (fileType | mode) as nat }

  lemma TypedIsOr(fileType: bv32, mode: bv32)
    ensures Typed(fileType, mode) as bv32 == fileType | mode
  {
  }

  lemma BitsOfOr(fileType: bv32, mode: bv32)
    ensures (fileType | mode) & fileType == fileType
    ensures (fileType | mode) & !fileType == mode & !fileType
  {
  }

  /** The bits of the type are set, and all others are those of the mode. */
  lemma TypedBits(fileType: bv32, mode: bv32)
    ensures Typed(fileType, mode) as bv32 & fileType == fileType
    ensures Typed(fileType, mode) as bv32 & !fileType == mode & !fileType
  {
    hide Typed;
    TypedIsOr(fileType, mode);
    BitsOfOr(fileType, mode);
  }

  /** A name without its leading slash; only one is taken off. */
  function StripSlash(name: string): (r: string)
    ensures name == ['/'] + r || (name == r && !(['/'] <= name))
  {
    if name != "" && name[0] == '/' then name[1..] else name
  }

  predicate IsGraph(c: char) { '!' <= c <= '~' }

  predicate IsBlank(c: char) { c in " \t\n\r" || c == 11 as char || c == 12 as char }

  /** Extra tokens count as links up to the first that begins with a non-graphic character. */
  function Links(extra: seq<string>): (r: seq<string>)
    ensures r <= extra && forall t | t in r :: t != "" && IsGraph(t[0])
    ensures r != extra ==> extra[|r|] == "" || !IsGraph(extra[|r|][0])
  {
    if extra == [] || extra[0] == "" || !IsGraph(extra[0][0]) then [] else [extra[0]] + Links(extra[1..])
  }

  function NamesOf(line: FileLine): (r: seq<string>)
    ensures |r| > 0
  {
    [line.name] + Links(line.extra)
  }

  /** All links of one file share inode and link count; the data goes on the last. */
  function FileEntries(names: seq<string>, data: string, ino: U32, mode: bv32, uid: U32, gid: U32, mtime: U32): (r: seq<Entry>)
    ensures |r| == |names|
  {
    seq(|names|, i requires 0 <= i < |names| =>
      Entry(ino, Typed(S_IFREG, mode), uid, gid, |names| % U32_LIMIT, mtime, 3, 1, 0, 0, 0,
            StripSlash(names[i]), if i == |names| - 1 then data else ""))
  }

  /** An unreadable file writes nothing; every other line becomes these entries. */
  predicate Accepted(c: Command) { c.File? ==> c.source.Contents? }

  function EntriesOf(c: Command, ino: U32, defaultMtime: U32): (r: seq<Entry>)
    requires Accepted(c)
  {
    match c
    case File(line, source, mode, uid, gid) =>
      FileEntries(NamesOf(line), source.data, ino, mode, uid, gid, source.mtime)
    case Node(name, mode, uid, gid, devType, maj, min) =>
      var typed := Typed(if devType == 'b' then S_IFBLK else S_IFCHR, mode);
      [Entry(ino, typed, uid, gid, 1, defaultMtime, 3, 1, maj, min, 0, StripSlash(name), "")]
    case Generic(kind, name, mode, uid, gid) =>
      [Entry(ino, Typed(KindMode(kind), mode), uid, gid, 2, defaultMtime, 3, 1, 0, 0, 0, StripSlash(name), "")]
    case Slink(name, target, mode, uid, gid) =>
      [Entry(ino, Typed(S_IFLNK, mode), uid, gid, 1, defaultMtime, 3, 1, 0, 0, 0, StripSlash(name), target + [NUL])]
  }

  /** What each kind of line is to become, as the members of an archive. A file that
      cannot be read becomes none, any other line at least one. */
  predicate Describes(c: Command, ino: U32, defaultMtime: U32, es: seq<Entry>) {
    match c
    case File(_, Unreadable, _, _, _) => es == []
    case File(line, Contents(data, mtime), mode, uid, gid) =>
      && |es| == |NamesOf(line)|
      && forall i | 0 <= i < |es| ::
           Is(es[i], ino, Typed(0x8000, mode), uid, gid, |es|, mtime, 0, 0, NamesOf(line)[i],
              if i == |es| - 1 then data else "")
    case Node(name, mode, uid, gid, devType, maj, min) =>
      |es| == 1 && Is(es[0], ino, Typed(if devType == 'b' then 0x6000 else 0x2000, mode), uid, gid, 1,
                      defaultMtime, maj, min, name, "")
    case Generic(Dir, name, mode, uid, gid) =>
      |es| == 1 && Is(es[0], ino, Typed(0x4000, mode), uid, gid, 2, defaultMtime, 0, 0, name, "")
    case Generic(Pipe, name, mode, uid, gid) =>
      |es| == 1 && Is(es[0], ino, Typed(0x1000, mode), uid, gid, 2, defaultMtime, 0, 0, name, "")
    case Generic(Sock, name, mode, uid, gid) =>
      |es| == 1 && Is(es[0], ino, Typed(0xC000, mode), uid, gid, 2, defaultMtime, 0, 0, name, "")
    case Slink(name, target, mode, uid, gid) =>
      |es| == 1 && Is(es[0], ino, Typed(0xA000, mode), uid, gid, 1, defaultMtime, 0, 0, name, target + [NUL])
  }

  /** The fields of a member that differ from line to line; its device is always 3, 1. */
  predicate Is(e: Entry, ino: int, mode: int, uid: int, gid: int, nlink: int, mtime: int, rmaj: int, rmin: int,
               name: string, data: string)
  {
    && e.ino == ino && e.mode == mode && e.uid == uid && e.gid == gid && e.nlink == nlink && e.mtime == mtime
    && e.rmaj == rmaj && e.rmin == rmin && e.maj == 3 && e.min == 1 && e.chksum == 0
    && (name == ['/'] + e.name || (name == e.name && !(['/'] <= name))) && e.data == data
  }

  lemma EntriesDescribe(c: Command, ino: U32, defaultMtime: U32)
    requires Accepted(c) && (c.File? ==> |NamesOf(c.line)| < U32_LIMIT)
    ensures Describes(c, ino, defaultMtime, EntriesOf(c, ino, defaultMtime))
  {
    hide Typed, NamesOf;
  }

  /** What decoding finds behind what was there before. */
  function Added(before: string, after: string): Option<seq<Entry>> {
    if before <= after then Decode(after[|before|..], 0) else None
  }

  lemma AddedAre(before: string, after: string, es: seq<Entry>)
    requires AllEncodable(es) && after == before + EncodeAll(es)
    ensures Added(before, after) == Some(es)
  {
    assert after[|before|..] == EncodeAll(es);
    RoundTrip(es);
  }

  /** The handler has added to fp exactly what the line is to become. */
  lemma AddedDescribed(before: string, after: string, c: Command, ino: U32, defaultMtime: U32)
    requires GoodLine(c) && Accepted(c) && AllEncodable(EntriesOf(c, ino, defaultMtime))
    requires after == before + EncodeAll(EntriesOf(c, ino, defaultMtime))
    ensures Added(before, after).Some? && Describes(c, ino, defaultMtime, Added(before, after).value)
  {
    hide Added, Describes, EntriesOf, GoodLine, Tokenized;
    if c.File? {
      GoodNames(c);
    }
    AddedAre(before, after, EntriesOf(c, ino, defaultMtime));
    EntriesDescribe(c, ino, defaultMtime);
  }

  lemma FileAdded(before: string, after: string, c: Command, ino: U32, defaultMtime: U32)
    requires GoodLine(c) && c.File?
    requires c.source.Unreadable? ==> after == before
    requires c.source.Contents? ==>
      var es := FileEntries(NamesOf(c.line), c.source.data, ino, c.mode, c.uid, c.gid, c.source.mtime);
      AllEncodable(es) && after == before + EncodeAll(es)
    ensures Added(before, after).Some? && Describes(c, ino, defaultMtime, Added(before, after).value)
  {
    hide NamesOf, GoodLine, AllEncodable, EncodeAll, FileEntries;
    if c.source.Contents? {
      AddedDescribed(before, after, c, ino, defaultMtime);
    } else {
      assert after[|before|..] == "";
    }
  }

  /** A C string that can name a member of the archive. */
  predicate GoodName(name: string) {
    NUL !in name && |name| <= PATH_MAX && StripSlash(name) != TRAILER_NAME
  }

  /** Where token k may follow its predecessor without a blank: a number ends in
      front of whatever cannot belong to it, and a word after PATH_MAX characters. */
  predicate MayTouch(tokens: seq<string>, k: nat)
    requires k < |tokens|
  {
    k == 0 || 3 <= k <= 5 || |tokens[k - 1]| == PATH_MAX
  }

  /** text is the tokens of a file line from number k on, in their order. */
  ghost predicate Tokenized(text: string, tokens: seq<string>, k: nat)
    requires k <= |tokens|
    decreases |tokens| - k
  {
    if k == |tokens| then forall c | c in text :: IsBlank(c)
    else exists gap: nat ::
      && (gap > 0 || MayTouch(tokens, k)) && TokenAt(text, gap, tokens[k])
      && Tokenized(text[gap + |tokens[k]|..], tokens, k + 1)
  }

  predicate TokenAt(text: string, gap: nat, token: string) {
    && token != "" && (forall c | c in token :: !IsBlank(c))
    && gap + |token| <= |text|
    && (forall c | c in text[..gap] :: IsBlank(c))
    && text[gap..gap + |token|] == token
  }

  function Tokens(line: FileLine): seq<string> {
    [line.name, line.location, line.modeText, line.uidText, line.gidText] + line.extra
  }

  ghost predicate GoodLine(c: Command) {
    match c
    case File(line, source, _, _, _) =>
      && Tokenized(line.text, Tokens(line), 0)
      && |line.text| < LINE_SIZE
      && GoodName(line.name) && (forall t | t in line.extra :: GoodName(t))
      && (source.Contents? ==> |source.data| < U32_LIMIT)
    case Node(name, _, _, _, _, _, _) => GoodName(name)
    case Generic(_, name, _, _, _) => GoodName(name)
    case Slink(name, target, _, _, _) => GoodName(name) && NUL !in target && |target| <= PATH_MAX
  }

  // ----- the packed names of a file line

  /** Names one behind the other, each closed by a null byte. */
  function Pack(names: seq<string>): string {
    if names == [] then "" else names[0] + [NUL] + Pack(names[1..])
  }

  lemma {:induction false} PackConcat(a: seq<string>, b: seq<string>)
    ensures Pack(a + b) == Pack(a) + Pack(b)
  {
    if a == [] {
      assert a + b == b;
    } else {
      assert (a + b)[1..] == a[1..] + b;
      PackConcat(a[1..], b);
    }
  }

  /** How many of the tokens from number k on may touch because of numbers, or
      because they are the first. */
  function Touching(k: nat): nat {
    if k == 0 then 4 else if k <= 3 then 3 else if k <= 5 then 6 - k else 0
  }

  /** The text leaves room for a null byte behind each token, but for those that
      touch their predecessor; cuts counts the ones that follow a cut word. */
  lemma {:induction false} TextHoldsTokens(text: string, tokens: seq<string>, k: nat) returns (cuts: nat)
    requires k <= |tokens| && Tokenized(text, tokens, k)
    ensures |Pack(tokens[k..])| <= |text| + Touching(k) + cuts
    ensures cuts * PATH_MAX <= |text| + if k > 0 then |tokens[k - 1]| else 0
  {
    if k == |tokens| {
      cuts := 0;
    } else {
      var gap: nat :| (gap > 0 || MayTouch(tokens, k)) && TokenAt(text, gap, tokens[k])
        && Tokenized(text[gap + |tokens[k]|..], tokens, k + 1);
      cuts := TextHoldsTokens(text[gap + |tokens[k]|..], tokens, k + 1);
      assert tokens[k..][1..] == tokens[k + 1..];
      if k > 0 && |tokens[k - 1]| == PATH_MAX {
        cuts := cuts + 1;
      }
    }
  }

  lemma {:induction false} PackPrefix(a: seq<string>, b: seq<string>)
    requires a <= b
    ensures |Pack(a)| <= |Pack(b)|
  {
    assert b == a + b[|a|..];
    PackConcat(a, b[|a|..]);
  }

  /** The names of a file line fit the buffer of strlen(line) bytes: the location
      and the three numbers leave more room than touching tokens can take. */
  lemma NamesFit(line: FileLine)
    requires Tokenized(line.text, Tokens(line), 0) && |line.text| < LINE_SIZE
    ensures |Pack(NamesOf(line))| <= |line.text|
    ensures |NamesOf(line)| <= |line.text|
  {
    var others := [line.location, line.modeText, line.uidText, line.gidText];
    var cuts := TextHoldsTokens(line.text, Tokens(line), 0);
    assert Tokens(line)[0..] == [line.name] + (others + line.extra);
    OthersLength(line, line.text);
    hide Tokenized, Links, Pack;
    PackConcat([line.name], others + line.extra);
    PackConcat(others, line.extra);
    PackConcat([line.name], Links(line.extra));
    PackPrefix(Links(line.extra), line.extra);
    PackLength(NamesOf(line));
  }

  lemma OthersLength(line: FileLine, text: string)
    requires Tokenized(text, Tokens(line), 0)
    ensures |Pack([line.location, line.modeText, line.uidText, line.gidText])| >= 8
  {
    TokenNotEmpty(text, Tokens(line), 0, 1);
    TokenNotEmpty(text, Tokens(line), 0, 2);
    TokenNotEmpty(text, Tokens(line), 0, 3);
    TokenNotEmpty(text, Tokens(line), 0, 4);
    PackOfNonEmpty([line.location, line.modeText, line.uidText, line.gidText]);
  }

  lemma {:induction false} PackOfNonEmpty(names: seq<string>)
    requires "" !in names
    ensures |Pack(names)| >= 2 * |names|
  {
    if names != [] {
      assert names[0] in names;
      PackOfNonEmpty(names[1..]);
    }
  }

  lemma {:induction false} TokenNotEmpty(text: string, tokens: seq<string>, k: nat, i: nat)
    requires k <= i < |tokens| && Tokenized(text, tokens, k)
    ensures tokens[i] != ""
    decreases i - k
  {
    var gap: nat :| (gap > 0 || MayTouch(tokens, k)) && TokenAt(text, gap, tokens[k])
      && Tokenized(text[gap + |tokens[k]|..], tokens, k + 1);
    if k < i {
      TokenNotEmpty(text[gap + |tokens[k]|..], tokens, k + 1, i);
    }
  }

  lemma {:induction false} PackLength(names: seq<string>)
    ensures |names| <= |Pack(names)|
  {
    if names != [] {
      PackLength(names[1..]);
    }
  }

  lemma FileEntriesEncodable(names: seq<string>, data: string, ino: U32, mode: bv32, uid: U32, gid: U32, mtime: U32)
    requires |data| < U32_LIMIT && forall t | t in names :: GoodName(t)
    ensures AllEncodable(FileEntries(names, data, ino, mode, uid, gid, mtime))
  {
    var es := FileEntries(names, data, ino, mode, uid, gid, mtime);
    forall e | e in es
      ensures Encodable(e)
    {
      var i :| 0 <= i < |es| && es[i] == e;
      assert GoodName(names[i]);
    }
  }

  lemma EntriesEncodable(c: Command, ino: U32, defaultMtime: U32)
    requires Accepted(c) && GoodLine(c)
    ensures AllEncodable(EntriesOf(c, ino, defaultMtime))
  {
    if c.File? {
      FileEntriesEncodable(NamesOf(c.line), c.source.data, ino, c.mode, c.uid, c.gid, c.source.mtime);
    }
  }

  /** Hard links as the format wants them, read off the entries of a file line. */
  lemma HardLinks(c: Command, ino: U32, defaultMtime: U32)
    requires c.File? && Accepted(c) && GoodLine(c)
    ensures var es, names := EntriesOf(c, ino, defaultMtime), NamesOf(c.line);
      && |es| == |names|
      && (forall i | 0 <= i < |es| :: es[i].ino == ino && es[i].nlink == |es| && es[i].name == StripSlash(names[i]))
      && (forall i | 0 <= i < |es| - 1 :: es[i].data == "")
      && es[|es| - 1].data == c.source.data
  {
    hide GoodLine, NamesOf, Typed, GoodName, Tokenized;
    GoodNames(c);
  }

  // ----- the temporary file of a worker

  /** What writing s at position pos makes of a file: old bytes behind it survive. */
  function Overwrite(file: string, pos: nat, s: string): (r: string)
    requires pos <= |file|
    ensures pos + |s| <= |r| && r[..pos + |s|] == file[..pos] + s
  {
    file[..pos] + s + (if pos + |s| <= |file| then file[pos + |s|..] else "")
  }

  class InodeCounter {
    var next: U32

    method GetIno() returns (ino: U32)
      modifies this
      ensures ino == old(next) && next == (old(next) + 1) % U32_LIMIT
    {
      ino := next;
      next := (next + 1) % U32_LIMIT;
    }
  }

  class Stream {
    var file: string
    var pos: nat
    var offset: nat

    ghost predicate Valid()
      reads this
    {
      pos <= |file|
    }

    /** The bytes in front of the stream position: all that a dump will emit. */
    ghost function Written(): string
      reads this
      requires Valid()
    {
      file[..pos]
    }

    method Fputs(s: string)
      requires Valid()
      modifies this`file, this`pos
      ensures Valid() && Written() == old(Written()) + s
    {
      file := Overwrite(file, pos, s);
      pos := pos + |s|;
    }

    method PushString(name: string)
      requires Valid()
      modifies this
      ensures Valid() && Written() == old(Written()) + (name + [NUL])
      ensures offset == old(offset) + |name| + 1
    {
      var nameLen := |name| + 1;
      Fputs(name);
      Fputs([NUL]);
      offset := offset + nameLen;
    }

    method PushPad()
      requires Valid()
      modifies this
      ensures Valid() && Written() == old(Written()) + Zeros(Padding(old(offset)))
      ensures offset == old(offset) + Padding(old(offset)) && offset % 4 == 0
    {
      ghost var written := Written();
      while offset % 4 != 0
        invariant Valid() && old(offset) <= offset
        invariant offset + Padding(offset) == old(offset) + Padding(old(offset))
        invariant Written() == written + Zeros(offset - old(offset))
        decreases Padding(offset)
      {
        Fputs([NUL]);
        offset := offset + 1;
      }
    }

    method PushRest(name: string)
      requires Valid()
      modifies this
      ensures Valid()
      ensures Written() == old(Written()) + (name + [NUL]) + Zeros(Padding(HEADER_SIZE + |name| + 1))
      ensures offset == old(offset) + |name| + 1 + Padding(HEADER_SIZE + |name| + 1)
    {
      var nameLen := |name| + 1;
      Fputs(name);
      Fputs([NUL]);
      offset := offset + nameLen;
      var tmpOfs := nameLen + 110;
      ghost var before, written := tmpOfs, Written();
      while tmpOfs % 4 != 0
        invariant Valid() && before <= tmpOfs
        invariant tmpOfs + Padding(tmpOfs) == before + Padding(before)
        invariant offset == old(offset) + nameLen + (tmpOfs - before)
        invariant Written() == written + Zeros(tmpOfs - before)
        decreases Padding(tmpOfs)
      {
        Fputs([NUL]);
        offset := offset + 1;
        tmpOfs := tmpOfs + 1;
      }
    }

    method PushHdr(s: string)
      requires Valid()
      modifies this
      ensures Valid() && Written() == old(Written()) + s && offset == old(offset) + HEADER_SIZE
    {
      Fputs(s);
      offset := offset + 110;
    }

    /** The end marker, filled up to a multiple of 512 from where the offset was 0. */
    method CpioTrailer()
      requires Valid() && offset == 0
      modifies this
      ensures Valid() && Written() == old(Written()) + Trailer()
      ensures offset == 512 && IsEnd(Written()[|old(Written())|..])
    {
      hide Header;
      PushHdr(Header(0, 0, 0, 0, 1, 0, 0, 0, 0, 0, 0, |TRAILER_NAME| + 1, 0));
      PushRest(TRAILER_NAME);
      ghost var written := Written();
      while offset % 512 != 0
        invariant Valid() && 124 <= offset <= 512
        invariant Written() == written + Zeros(offset - 124)
        decreases 512 - offset
      {
        Fputs([NUL]);
        offset := offset + 1;
      }
      assert Written() == written + Zeros(388);
      EndIsWritten(old(Written()), Written());
    }
  }

  lemma EndIsWritten(before: string, after: string)
    requires after == before + Trailer()
    ensures |before| <= |after| && IsEnd(after[|before|..])
  {
    TrailerIsEnd();
    hide Trailer, IsEnd;
    assert after[|before|..] == Trailer();
  }

  // ----- the handlers

  lemma HeaderFields(e: Entry)
    requires FitsFields(e)
    ensures HeaderOf(e) == Header(e.ino, e.mode, e.uid, e.gid, e.nlink, e.mtime, |e.data|,
                                  e.maj, e.min, e.rmaj, e.rmin, |e.name| + 1, e.chksum)
  {
  }

  lemma SlinkEntry(name: string, target: string, mode: bv32, uid: U32, gid: U32, ino: U32, defaultMtime: U32)
      returns (e: Entry)
    requires GoodLine(Slink(name, target, mode, uid, gid))
    ensures EntriesOf(Slink(name, target, mode, uid, gid), ino, defaultMtime) == [e]
    ensures Encodable(e) && e.data == target + [NUL]
    ensures e.name == if name != "" && name[0] == '/' then name[1..] else name
    ensures |e.name| + 1 < U32_LIMIT && |target| + 1 < U32_LIMIT
    ensures HeaderOf(e) == Header(ino, Typed(S_IFLNK, mode), uid, gid, 1, defaultMtime, |target| + 1,
                                  3, 1, 0, 0, |e.name| + 1, 0)
  {
    hide Header, Typed;
    e := EntriesOf(Slink(name, target, mode, uid, gid), ino, defaultMtime)[0];
    HeaderFields(e);
  }

  method CpioMkslink(fp: Stream, inodes: InodeCounter, name: string, target: string, mode: bv32,
                     uid: U32, gid: U32, defaultMtime: U32)
    requires fp.Valid() && fp.offset % 4 == 0 && GoodLine(Slink(name, target, mode, uid, gid))
    modifies fp, inodes
    ensures fp.Valid() && fp.offset % 4 == 0 && inodes.next == (old(inodes.next) + 1) % U32_LIMIT
    ensures var es := EntriesOf(Slink(name, target, mode, uid, gid), old(inodes.next), defaultMtime);
      AllEncodable(es) && fp.Written() == old(fp.Written()) + EncodeAll(es)
    ensures var r := Added(old(fp.Written()), fp.Written());
      r.Some? && |r.value| == 1 && Is(r.value[0], old(inodes.next), Typed(0xA000, mode), uid, gid, 1, defaultMtime,
                                     0, 0, name, target + [NUL])
  {
    hide Header, HeaderOf, Encode, EncodeAll, EntriesOf, Typed, Encodable, AllEncodable, Overwrite, Zeros, Padding, GoodLine;
    var stripped := if name != "" && name[0] == '/' then name[1..] else name;
    var ino := inodes.GetIno();
    ghost var e := SlinkEntry(name, target, mode, uid, gid, ino, defaultMtime);
    assert stripped == e.name;
    var header := Header(ino, Typed(S_IFLNK, mode), uid, gid, 1, defaultMtime, |target| + 1,
                         3, 1, 0, 0, |stripped| + 1, 0);
    fp.PushHdr(header);
    fp.PushString(stripped);
    PaddingShift(old(fp.offset), HEADER_SIZE + |stripped| + 1);
    fp.PushPad();
    PaddingShift(fp.offset, |target| + 1);
    fp.PushString(target);
    fp.PushPad();
    OneRecord(e, header, old(fp.Written()), fp.Written());
    AddedDescribed(old(fp.Written()), fp.Written(), Slink(name, target, mode, uid, gid), ino, defaultMtime);
  }

  lemma GenericEntry(kind: Kind, name: string, mode: bv32, uid: U32, gid: U32, ino: U32, defaultMtime: U32)
      returns (e: Entry)
    requires GoodName(name)
    ensures EntriesOf(Generic(kind, name, mode, uid, gid), ino, defaultMtime) == [e]
    ensures Encodable(e) && e.data == "" && |e.name| + 1 < U32_LIMIT
    ensures e.name == if name != "" && name[0] == '/' then name[1..] else name
    ensures HeaderOf(e) == Header(ino, Typed(KindMode(kind), mode), uid, gid, 2, defaultMtime, 0,
                                  3, 1, 0, 0, |e.name| + 1, 0)
  {
    hide Header, Typed;
    e := EntriesOf(Generic(kind, name, mode, uid, gid), ino, defaultMtime)[0];
    HeaderFields(e);
  }

  method CpioMkgeneric(fp: Stream, inodes: InodeCounter, kind: Kind, name: string, mode: bv32,
                       uid: U32, gid: U32, defaultMtime: U32)
    requires fp.Valid() && fp.offset % 4 == 0 && GoodName(name)
    modifies fp, inodes
    ensures fp.Valid() && fp.offset % 4 == 0 && inodes.next == (old(inodes.next) + 1) % U32_LIMIT
    ensures var es := EntriesOf(Generic(kind, name, mode, uid, gid), old(inodes.next), defaultMtime);
      AllEncodable(es) && fp.Written() == old(fp.Written()) + EncodeAll(es)
    ensures var r := Added(old(fp.Written()), fp.Written());
      && r.Some? && |r.value| == 1
      && Is(r.value[0], old(inodes.next), Typed(match kind case Dir => 0x4000 case Pipe => 0x1000 case Sock => 0xC000, mode),
            uid, gid, 2, defaultMtime, 0, 0, name, "")
  {
    hide Header, HeaderOf, Encode, EncodeAll, EntriesOf, Typed, Encodable, AllEncodable, Overwrite, Zeros, Padding,
      GoodName, GoodLine, KindMode, Added, Is, Describes;
    var stripped := if name != "" && name[0] == '/' then name[1..] else name;
    var ino := inodes.GetIno();
    ghost var e := GenericEntry(kind, name, mode, uid, gid, ino, defaultMtime);
    assert stripped == e.name;
    var header := Header(ino, Typed(KindMode(kind), mode), uid, gid, 2, defaultMtime, 0,
                         3, 1, 0, 0, |stripped| + 1, 0);
    PaddingShift(fp.offset, HEADER_SIZE + |stripped| + 1);
    fp.PushHdr(header);
    fp.PushRest(stripped);
    OneRecordWithoutData(e, header, old(fp.Written()), fp.Written());
    GenericAdded(old(fp.Written()), fp.Written(), kind, name, mode, uid, gid, ino, defaultMtime);
  }

  lemma GenericAdded(before: string, after: string, kind: Kind, name: string, mode: bv32, uid: U32, gid: U32,
                     ino: U32, defaultMtime: U32)
    requires GoodName(name)
    requires var es := EntriesOf(Generic(kind, name, mode, uid, gid), ino, defaultMtime);
      AllEncodable(es) && after == before + EncodeAll(es)
    ensures var r := Added(before, after);
      && r.Some? && |r.value| == 1
      && Is(r.value[0], ino, Typed(match kind case Dir => 0x4000 case Pipe => 0x1000 case Sock => 0xC000, mode),
            uid, gid, 2, defaultMtime, 0, 0, name, "")
  {
    hide EntriesOf, AllEncodable, EncodeAll, Typed, GoodName, Added, Is;
    AddedDescribed(before, after, Generic(kind, name, mode, uid, gid), ino, defaultMtime);
  }

  lemma NodeEntry(name: string, mode: bv32, uid: U32, gid: U32, devType: char, maj: U32, min: U32,
                  ino: U32, defaultMtime: U32) returns (e: Entry)
    requires GoodName(name)
    ensures EntriesOf(Node(name, mode, uid, gid, devType, maj, min), ino, defaultMtime) == [e]
    ensures Encodable(e) && e.data == "" && |e.name| + 1 < U32_LIMIT
    ensures e.name == if name != "" && name[0] == '/' then name[1..] else name
    ensures HeaderOf(e) == Header(ino, Typed(if devType == 'b' then S_IFBLK else S_IFCHR, mode), uid, gid, 1,
                                  defaultMtime, 0, 3, 1, maj, min, |e.name| + 1, 0)
  {
    hide Header, Typed;
    e := EntriesOf(Node(name, mode, uid, gid, devType, maj, min), ino, defaultMtime)[0];
    HeaderFields(e);
  }

  method CpioMknod(fp: Stream, inodes: InodeCounter, name: string, mode: bv32, uid: U32, gid: U32,
                   devType: char, maj: U32, min: U32, defaultMtime: U32)
    requires fp.Valid() && fp.offset % 4 == 0 && GoodName(name)
    modifies fp, inodes
    ensures fp.Valid() && fp.offset % 4 == 0 && inodes.next == (old(inodes.next) + 1) % U32_LIMIT
    ensures var es := EntriesOf(Node(name, mode, uid, gid, devType, maj, min), old(inodes.next), defaultMtime);
      AllEncodable(es) && fp.Written() == old(fp.Written()) + EncodeAll(es)
    ensures var r := Added(old(fp.Written()), fp.Written());
      r.Some? && |r.value| == 1 && Is(r.value[0], old(inodes.next), Typed(if devType == 'b' then 0x6000 else 0x2000, mode),
                                     uid, gid, 1, defaultMtime, maj, min, name, "")
  {
    hide Header, HeaderOf, Encode, EncodeAll, EntriesOf, Typed, Encodable, AllEncodable, Overwrite, Zeros, Padding,
      GoodName, GoodLine, Added, Is, Describes;
    var typed := Typed(if devType == 'b' then S_IFBLK else S_IFCHR, mode);
    var stripped := if name != "" && name[0] == '/' then name[1..] else name;
    var ino := inodes.GetIno();
    ghost var e := NodeEntry(name, mode, uid, gid, devType, maj, min, ino, defaultMtime);
    assert stripped == e.name;
    var header := Header(ino, typed, uid, gid, 1, defaultMtime, 0,
                         3, 1, maj, min, |stripped| + 1, 0);
    PaddingShift(fp.offset, HEADER_SIZE + |stripped| + 1);
    fp.PushHdr(header);
    fp.PushRest(stripped);
    OneRecordWithoutData(e, header, old(fp.Written()), fp.Written());
    NodeAdded(old(fp.Written()), fp.Written(), name, mode, uid, gid, devType, maj, min, ino, defaultMtime);
  }

  lemma NodeAdded(before: string, after: string, name: string, mode: bv32, uid: U32, gid: U32,
                  devType: char, maj: U32, min: U32, ino: U32, defaultMtime: U32)
    requires GoodName(name)
    requires var es := EntriesOf(Node(name, mode, uid, gid, devType, maj, min), ino, defaultMtime);
      AllEncodable(es) && after == before + EncodeAll(es)
    ensures var r := Added(before, after);
      r.Some? && |r.value| == 1 && Is(r.value[0], ino, Typed(if devType == 'b' then 0x6000 else 0x2000, mode),
                                     uid, gid, 1, defaultMtime, maj, min, name, "")
  {
    hide EntriesOf, AllEncodable, EncodeAll, Typed, GoodName, Added, Is;
    AddedDescribed(before, after, Node(name, mode, uid, gid, devType, maj, min), ino, defaultMtime);
  }

  /** A header, the name, and the data with their padding: one encoded record. */
  lemma OneRecord(e: Entry, header: string, before: string, after: string)
    requires Encodable(e) && header == HeaderOf(e)
    requires after == before + header + (e.name + [NUL]) + Zeros(Padding(HEADER_SIZE + |e.name| + 1))
                      + e.data + Zeros(Padding(|e.data|))
    ensures AllEncodable([e]) && after == before + EncodeAll([e])
    ensures |after| % 4 == |before| % 4
  {
    hide HeaderOf;
    assert after == before + Encode(e);
    hide Encode;
    assert [e] == [e] + [];
    EncodeAllCons(e, []);
    assert EncodeAll([e]) == Encode(e) + "";
  }

  lemma OneRecordWithoutData(e: Entry, header: string, before: string, after: string)
    requires Encodable(e) && header == HeaderOf(e) && e.data == ""
    requires after == before + header + (e.name + [NUL]) + Zeros(Padding(HEADER_SIZE + |e.name| + 1))
    ensures AllEncodable([e]) && after == before + EncodeAll([e])
    ensures |after| % 4 == |before| % 4
  {
    hide HeaderOf;
    assert after == after + "" + Zeros(Padding(0));
    OneRecord(e, header, before, after);
  }

  method Strlen(buf: string, start: nat, ghost s: string) returns (n: nat)
    requires start <= |buf| && NUL !in s && s + [NUL] <= buf[start..]
    ensures n == |s| && start + n < |buf| && buf[start..start + n] == s
  {
    ghost var t := s + [NUL];
    assert forall k | 0 <= k < |t| :: buf[start + k] == buf[start..][k] == t[k];
    n := 0;
    while buf[start + n] != NUL
      invariant n <= |s|
      decreases |s| - n
    {
      assert buf[start + n] == t[n];
      n := n + 1;
    }
    assert t[n] == NUL;
  }

  /** Skipping one leading slash in the buffer strips it from the name there. */
  lemma SlashSkipped(full: string, buf: string, at: nat)
    requires at <= |buf| && full + [NUL] <= buf[at..] && GoodName(full)
    ensures at < |buf|
    ensures var start := if buf[at] == '/' then at + 1 else at;
      && StripSlash(full) + [NUL] <= buf[start..] && NUL !in StripSlash(full)
      && start + |StripSlash(full)| == at + |full|
  {
    assert buf[at] == buf[at..][0] == (full + [NUL])[0];
    if buf[at] == '/' {
      assert full[0] == '/' && buf[at + 1..] == buf[at..][1..];
      assert (full + [NUL])[1..] == StripSlash(full) + [NUL];
    }
  }

  /** The name that starts at an index of the packed buffer, without its slash. */
  method NameAt(dname: string, name: nat, ghost full: string) returns (start: nat, len: nat)
    requires name <= |dname| && full + [NUL] <= dname[name..] && GoodName(full)
    ensures start + len == name + |full| < |dname| && dname[start..start + len] == StripSlash(full)
  {
    SlashSkipped(full, dname, name);
    start := name;
    if dname[name] == '/' {
      start := name + 1;
    }
    len := Strlen(dname, start, StripSlash(full));
  }

  lemma LinkFits(e: Entry, full: string)
    requires GoodName(full) && e.name == StripSlash(full)
    requires e == Entry(e.ino, e.mode, e.uid, e.gid, e.nlink, e.mtime, 3, 1, 0, 0, 0, e.name, e.data)
    requires |e.data| < U32_LIMIT
    ensures Encodable(e) && |e.name| + 1 < U32_LIMIT
    ensures HeaderOf(e) == Header(e.ino, e.mode, e.uid, e.gid, e.nlink, e.mtime, |e.data|,
                                  e.maj, e.min, e.rmaj, e.rmin, |e.name| + 1, e.chksum)
  {
    hide Header;
    HeaderFields(e);
  }

  /** One turn of the loop in cpio_mkfile: the record of the link whose name
      starts at index name of the packed buffer. */
  method PushLink(fp: Stream, ino: U32, dname: string, name: nat, ghost e: Entry, ghost full: string,
                  mode: U32, uid: U32, gid: U32, nlinks: U32, mtime: U32, data: string, size: U32)
      returns (next: nat)
    requires fp.Valid() && fp.offset % 4 == 0
    requires name <= |dname| && full + [NUL] <= dname[name..] && GoodName(full)
    requires e == Entry(ino, mode, uid, gid, nlinks, mtime, 3, 1, 0, 0, 0, StripSlash(full), e.data)
    requires |e.data| == size && e.data == (if size == 0 then "" else data)
    modifies fp
    ensures fp.Valid() && fp.offset % 4 == 0
    ensures AllEncodable([e]) && fp.Written() == old(fp.Written()) + EncodeAll([e])
    ensures next == name + |full| + 1
  {
    hide Header, HeaderOf, Encode, EncodeAll, StripSlash, GoodName, Encodable, AllEncodable, Overwrite, Zeros, Padding;
    LinkFits(e, full);
    var start, len := NameAt(dname, name, full);
    assert dname[start..start + len] == e.name;
    var namesize := len + 1;
    var header := Header(ino, mode, uid, gid, nlinks, mtime, size, 3, 1, 0, 0, namesize, 0);
    fp.PushHdr(header);
    fp.PushString(dname[start..start + len]);
    PaddingShift(old(fp.offset), HEADER_SIZE + namesize);
    fp.PushPad();
    if size != 0 {
      PaddingShift(fp.offset, size);
      fp.Fputs(data);
      fp.offset := fp.offset + size;
      fp.PushPad();
      OneRecord(e, header, old(fp.Written()), fp.Written());
    } else {
      OneRecordWithoutData(e, header, old(fp.Written()), fp.Written());
    }
    next := start + namesize;
  }

  /** The loop of cpio_mkfile over the links of one file. */
  method PushLinks(fp: Stream, ino: U32, dname: string, ghost names: seq<string>, data: string,
                   mode: bv32, uid: U32, gid: U32, nlinks: U32, mtime: U32)
    requires fp.Valid() && fp.offset % 4 == 0
    requires nlinks == |names| > 0 && Pack(names) <= dname
    requires forall t | t in names :: GoodName(t)
    requires |data| < U32_LIMIT
    modifies fp
    ensures fp.Valid() && fp.offset % 4 == 0
    ensures var es := FileEntries(names, data, ino, mode, uid, gid, mtime);
      AllEncodable(es) && fp.Written() == old(fp.Written()) + EncodeAll(es)
  {
    hide *;
    ghost var es := FileEntries(names, data, ino, mode, uid, gid, mtime);
    FileEntriesEncodable(names, data, ino, mode, uid, gid, mtime);
    ghost var written := fp.Written();
    var size: U32 := 0;
    var name: nat := 0;
    var i := 1;
    NothingYet(es, names, dname, written);
    while i <= nlinks
      invariant 1 <= i <= nlinks + 1
      invariant fp.Valid() && fp.offset % 4 == 0
      invariant name <= |dname| && Pack(names[i - 1..]) <= dname[name..]
      invariant i <= nlinks ==> size == 0
      invariant AllEncodable(es[..i - 1]) && fp.Written() == written + EncodeAll(es[..i - 1])
    {
      // the other links have no data
      if i == nlinks {
        size := |data|;
      }
      FrontOfPack(names, i - 1, dname, name);
      FileEntryAt(names, data, ino, mode, uid, gid, mtime, i - 1);
      name := PushLink(fp, ino, dname, name, es[i - 1], names[i - 1], Typed(S_IFREG, mode), uid, gid,
                       nlinks, mtime, data, size);
      EncodeNext(es, i - 1, written);
      i := i + 1;
    }
    assert es[..nlinks] == es;
  }

  method CpioMkfile(fp: Stream, inodes: InodeCounter, dname: string, ghost names: seq<string>,
                    source: Source, mode: bv32, uid: U32, gid: U32, nlinks: U32) returns (rc: int)
    requires fp.Valid() && fp.offset % 4 == 0
    requires nlinks == |names| > 0 && Pack(names) <= dname
    requires forall t | t in names :: GoodName(t)
    requires source.Contents? ==> |source.data| < U32_LIMIT
    modifies fp, inodes
    ensures fp.Valid() && fp.offset % 4 == 0
    ensures rc == (if source.Contents? then 0 else -1)
    ensures source.Unreadable? ==> fp.Written() == old(fp.Written()) && inodes.next == old(inodes.next)
    ensures source.Contents? ==> inodes.next == (old(inodes.next) + 1) % U32_LIMIT
    ensures source.Contents? ==>
      var es := FileEntries(names, source.data, old(inodes.next), mode, uid, gid, source.mtime);
      AllEncodable(es) && fp.Written() == old(fp.Written()) + EncodeAll(es)
  {
    if source.Unreadable? {
      return -1;
    }
    hide *;
    var ino := inodes.GetIno();
    PushLinks(fp, ino, dname, names, source.data, mode, uid, gid, nlinks, source.mtime);
    rc := 0;
  }

  lemma FileEntryAt(names: seq<string>, data: string, ino: U32, mode: bv32, uid: U32, gid: U32, mtime: U32, i: nat)
    requires i < |names| < U32_LIMIT
    ensures var es := FileEntries(names, data, ino, mode, uid, gid, mtime);
      es[i] == Entry(ino, Typed(S_IFREG, mode), uid, gid, |names|, mtime, 3, 1, 0, 0, 0,
                     StripSlash(names[i]), if i == |names| - 1 then data else "")
  {
  }

  lemma NothingYet(es: seq<Entry>, names: seq<string>, packed: string, written: string)
    requires AllEncodable(es) && Pack(names) <= packed
    ensures AllEncodable(es[..0]) && written == written + EncodeAll(es[..0])
    ensures Pack(names[0..]) <= packed[0..]
  {
    assert names[0..] == names && packed[0..] == packed;
  }

  lemma EncodeNext(es: seq<Entry>, i: nat, written: string)
    requires i < |es| && AllEncodable(es)
    ensures AllEncodable(es[..i]) && AllEncodable([es[i]]) && AllEncodable(es[..i + 1])
    ensures written + EncodeAll(es[..i + 1]) == written + EncodeAll(es[..i]) + EncodeAll([es[i]])
  {
    hide EncodeAll, Encodable;
    assert es[..i + 1] == es[..i] + [es[i]];
    EncodeAllConcat(es[..i], [es[i]]);
  }

  /** Name i of a packed buffer stands at index at, and the others behind it. */
  lemma FrontOfPack(names: seq<string>, i: nat, buf: string, at: nat)
    requires i < |names| && at <= |buf| && Pack(names[i..]) <= buf[at..]
    ensures names[i] + [NUL] <= buf[at..]
    ensures at + |names[i]| + 1 <= |buf| && Pack(names[i + 1..]) <= buf[at + |names[i]| + 1..]
  {
    assert names[i..][1..] == names[i + 1..];
    assert Pack(names[i..]) == names[i] + [NUL] + Pack(names[i + 1..]);
    assert buf[at..][|names[i]| + 1..] == buf[at + |names[i]| + 1..];
  }

  method Memcpy(dst: array<char>, at: nat, src: string)
    requires at + |src| <= dst.Length
    modifies dst
    ensures dst[..at + |src|] == old(dst[..at]) + src
  {
    forall i | 0 <= i < |src| {
      dst[at + i] := src[i];
    }
  }

  /** The names as cpio_mkfile_line lays them out: in the name buffer when there
      is one, else in a buffer of strlen(line) bytes, which is never exceeded. */
  method PackNames(line: FileLine) returns (dname: array<char>, nlinks: nat)
    requires Tokenized(line.text, Tokens(line), 0) && |line.text| < LINE_SIZE && |line.name| <= PATH_MAX
    ensures fresh(dname) && nlinks == |NamesOf(line)| && Pack(NamesOf(line)) <= dname[..]
    ensures dname.Length == if nlinks > 1 then |line.text| else PATH_MAX + 1
  {
    hide Pack, Tokenized, Links;
    LinkAt(line.extra, 0);
    NamesFit(line);
    ghost var names := NamesOf(line);
    nlinks := 1;
    FirstName(names);
    if line.extra != [] && line.extra[0] != "" && IsGraph(line.extra[0][0]) {
      dname := new char[|line.text|];
      var dnameLen: nat := |line.name| + 1;
      Memcpy(dname, 0, line.name + [NUL]);
      var next := 0;
      while next < |line.extra| && line.extra[next] != "" && IsGraph(line.extra[next][0])
        invariant next <= |Links(line.extra)| && nlinks == next + 1
        invariant dnameLen <= dname.Length && dname[..dnameLen] == Pack(names[..nlinks])
      {
        var link := line.extra[next];
        LinkAt(line.extra, next);
        AppendName(names, nlinks, link);
        Memcpy(dname, dnameLen, link + [NUL]);
        dnameLen := dnameLen + |link| + 1;
        nlinks := nlinks + 1;
        next := next + 1;
      }
      LinkAt(line.extra, next);
      assert names[..nlinks] == names;
    } else {
      dname := new char[PATH_MAX + 1];
      Memcpy(dname, 0, line.name + [NUL]);
      assert names == names[..1];
    }
  }

  lemma {:induction false} LinkAt(extra: seq<string>, k: nat)
    requires k <= |Links(extra)|
    ensures k < |Links(extra)| <==> k < |extra| && extra[k] != "" && IsGraph(extra[k][0])
    ensures k < |Links(extra)| ==> Links(extra)[k] == extra[k]
  {
    if k > 0 {
      LinkAt(extra[1..], k - 1);
    }
  }

  lemma FirstName(names: seq<string>)
    requires names != []
    ensures Pack(names[..1]) == names[0] + [NUL] && |names[0]| + 1 <= |Pack(names)|
  {
    assert names[..1][1..] == [];
    PackPrefix(names[..1], names);
  }

  lemma AppendName(names: seq<string>, k: nat, name: string)
    requires k < |names| && names[k] == name
    ensures Pack(names[..k + 1]) == Pack(names[..k]) + (name + [NUL])
    ensures |Pack(names[..k + 1])| <= |Pack(names)|
  {
    assert names[..k + 1] == names[..k] + [name];
    assert Pack([name]) == name + [NUL] by {
      assert [name][1..] == [];
    }
    PackConcat(names[..k], [name]);
    PackPrefix(names[..k + 1], names);
  }

  lemma GoodNames(c: Command)
    requires c.File? && GoodLine(c)
    ensures Tokenized(c.line.text, Tokens(c.line), 0)
    ensures |c.line.text| < LINE_SIZE && |c.line.name| <= PATH_MAX
    ensures |NamesOf(c.line)| < U32_LIMIT && forall t | t in NamesOf(c.line) :: GoodName(t)
    ensures c.source.Contents? ==> |c.source.data| < U32_LIMIT
  {
    NamesFit(c.line);
  }

  method CpioMkfileLine(fp: Stream, inodes: InodeCounter, line: FileLine, source: Source,
                        mode: bv32, uid: U32, gid: U32) returns (rc: int)
    requires fp.Valid() && fp.offset % 4 == 0 && GoodLine(File(line, source, mode, uid, gid))
    modifies fp, inodes
    ensures fp.Valid() && fp.offset % 4 == 0
    ensures rc == (if source.Contents? then 0 else -1)
    ensures source.Unreadable? ==> fp.Written() == old(fp.Written()) && inodes.next == old(inodes.next)
    ensures source.Contents? ==> inodes.next == (old(inodes.next) + 1) % U32_LIMIT
    ensures source.Contents? ==>
      var es := FileEntries(NamesOf(line), source.data, old(inodes.next), mode, uid, gid, source.mtime);
      AllEncodable(es) && fp.Written() == old(fp.Written()) + EncodeAll(es)
    ensures var r := Added(old(fp.Written()), fp.Written());
      r.Some? && Describes(File(line, source, mode, uid, gid), old(inodes.next), 0, r.value)
  {
    hide *;
    GoodNames(File(line, source, mode, uid, gid));
    var dname, nlinks := PackNames(line);
    rc := CpioMkfile(fp, inodes, dname[..], NamesOf(line), source, mode, uid, gid, nlinks);
    FileAdded(old(fp.Written()), fp.Written(), File(line, source, mode, uid, gid), old(inodes.next), 0);
  }

  /** The handler table. A line that is refused writes nothing and takes no inode;
      any other line adds exactly its records, whose size is a multiple of 4. */
  method Handle(fp: Stream, inodes: InodeCounter, c: Command, defaultMtime: U32) returns (rc: int)
    requires fp.Valid() && fp.offset % 4 == 0 && GoodLine(c)
    modifies fp, inodes
    ensures fp.Valid() && fp.offset % 4 == 0
    ensures rc == 0 <==> Accepted(c)
    ensures !Accepted(c) ==> fp.Written() == old(fp.Written()) && inodes.next == old(inodes.next)
    ensures Accepted(c) ==> inodes.next == (old(inodes.next) + 1) % U32_LIMIT
    ensures Accepted(c) ==>
      var es := EntriesOf(c, old(inodes.next), defaultMtime);
      AllEncodable(es) && fp.Written() == old(fp.Written()) + EncodeAll(es)
    ensures rc == 0 <==> !(c.File? && c.source.Unreadable?)
    ensures var r := Added(old(fp.Written()), fp.Written());
      r.Some? && Describes(c, old(inodes.next), defaultMtime, r.value)
  {
    rc := 0;
    match c
    case File(line, source, mode, uid, gid) =>
      rc := CpioMkfileLine(fp, inodes, line, source, mode, uid, gid);
    case Node(name, mode, uid, gid, devType, maj, min) =>
      CpioMknod(fp, inodes, name, mode, uid, gid, devType, maj, min, defaultMtime);
    case Generic(kind, name, mode, uid, gid) =>
      CpioMkgeneric(fp, inodes, kind, name, mode, uid, gid, defaultMtime);
    case Slink(name, target, mode, uid, gid) =>
      CpioMkslink(fp, inodes, name, target, mode, uid, gid, defaultMtime);
    hide *;
    HandledAdded(old(fp.Written()), fp.Written(), c, old(inodes.next), defaultMtime);
  }

  lemma HandledAdded(before: string, after: string, c: Command, ino: U32, defaultMtime: U32)
    requires GoodLine(c) && (!Accepted(c) ==> after == before)
    requires Accepted(c) ==> AllEncodable(EntriesOf(c, ino, defaultMtime)) && after == before + EncodeAll(EntriesOf(c, ino, defaultMtime))
    ensures Added(before, after).Some? && Describes(c, ino, defaultMtime, Added(before, after).value)
  {
    hide GoodLine, AllEncodable, EncodeAll, EntriesOf;
    if Accepted(c) {
      AddedDescribed(before, after, c, ino, defaultMtime);
    } else {
      assert after[|before|..] == "";
    }
  }

  // ----- emitting

  /** Reads the file back up to the stream position and appends that to stdout. */
  method WriteToStdout(fp: Stream, out: Stream) returns (n: nat)
    requires fp != out && fp.Valid() && out.Valid()
    modifies fp`pos, out`file, out`pos
    ensures fp.Valid() && out.Valid() && n == |old(fp.Written())|
    ensures fp.pos == old(fp.pos)
    ensures out.Written() == old(out.Written()) + old(fp.Written())
  {
    var bytesToRead := fp.pos;
    if bytesToRead == 0 {
      return 0;
    }
    fp.pos := 0;
    var buf := fp.file[fp.pos..bytesToRead];
    fp.pos := fp.pos + bytesToRead;
    out.Fputs(buf);
    n := bytesToRead;
  }

  /** A dump that gets the lock empties the stream; the stale bytes stay in the
      file, in front of nothing that has been written. */
  method TryDumpToStdout(fp: Stream, out: Stream, locked: bool)
    requires fp != out && fp.Valid() && out.Valid()
    modifies fp, out`file, out`pos
    ensures fp.Valid() && out.Valid() && fp.file == old(fp.file)
    ensures locked ==> fp.pos == old(fp.pos) && fp.offset == old(fp.offset) && out.Written() == old(out.Written())
    ensures !locked ==>
      && fp.Written() == "" && fp.offset == 0
      && out.Written() == old(out.Written()) + old(fp.Written())
  {
    if locked {
      return;
    }
    var bytesDumped := WriteToStdout(fp, out);
    fp.pos := 0;
    fp.offset := 0;
  }
}
