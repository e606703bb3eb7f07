/** Burp's protocol-1 manifest record codec (src/protocol1/sbufl.c).

    A record is framed as `<cmd char><4 hex digit length><payload><one
    trailing byte>`. An entry is an attributes record, a path record, a link
    record for links and an end-of-file record for file data (except in
    phase-1 manifests), optionally preceded by data-path records. Entries
    are read from a manifest (a character stream read through a cursor) or
    from the network channel (a stream of already separated records), and
    written to a manifest sink.

    Each reading operation is a method on the stream objects, proved equal
    to a specification function over a pure stream state `Src`; the
    properties (round trips, order checks, control strings) are lemmas
    about those functions. */
module Sbufl {
  import opened Libc
  import opened Records

  // =====================================================================
  // Entries

  /** The protocol-1 view of a `struct sbuf`: each buffer is None while
      unset (NULL). The attributes stay an opaque payload: decoding them
      into a stat structure is not part of this model. */
  datatype Sbuf = Sbuf(attr: Option<IoBuf>, path: Option<IoBuf>, link: Option<IoBuf>,
                       datapth: Option<IoBuf>, endfile: Option<IoBuf>)

  /** A freshly allocated (or freed) sbuf. */
  const EmptySbuf: Sbuf := Sbuf(None, None, None, None, None)

  /** sbuf_is_link: the path record's command is a link command. */
  predicate IsLinkEntry(sb: Sbuf) {
    sb.path.Some? && IsLinkCmd(sb.path.value.cmd)
  }

  /** sbuf_is_filedata */
  predicate IsFiledataEntry(sb: Sbuf) {
    sb.path.Some? && IsFiledataCmd(sb.path.value.cmd)
  }

  /** The five generic records that end entry reading cleanly. */
  predicate IsControl(rec: IoBuf) {
    rec.cmd == CMD_GEN
    && CStr(rec.buf) in {"backupend", "restoreend", "phase1end", "backupphase2", "estimateend"}
  }

  // =====================================================================
  // Framing

  /** A record that the four-digit length field can frame and that the
      header parser can read back (a NUL command letter ends the header). */
  predicate FitsFrame(rec: IoBuf) {
    rec.cmd != '\0' && |rec.buf| <= 0xFFFF
  }

  /** The bytes a record is written as. The writer (iobuf_send_msg_fp and
      iobuf_send_msg_zp) is not part of this model: this is the framing
      read_fp reads, with a newline as the trailing byte. */
  function Frame(rec: IoBuf): seq<char> {
    [rec.cmd] + Hex04(|rec.buf|) + rec.buf + ['\n']
  }

  function FrameAll(recs: seq<IoBuf>): seq<char> {
    if recs == [] then [] else Frame(recs[0]) + FrameAll(recs[1..])
  }

  /** read_fp_msg over a manifest held in memory: `len` bytes from `pos`.
      When the data runs out first, the result is end of file, or a read
      error when the stream is one that fails at its end. */
  function ReadMsgSpec(data: seq<char>, failsAtEnd: bool, pos: nat, len: nat): (r: (Read<seq<char>>, nat))
    requires pos <= |data|
    ensures pos <= r.1 <= |data|
  {
    if pos + len <= |data| then (Got(data[pos..pos + len]), pos + len)
    else (if failsAtEnd then Fail else Eof, |data|)
  }

  /** sscanf(header, "%c%04X"): the command letter and the length. */
  function ParseHeader(h: seq<char>): (r: Option<(Cmd, nat)>)
    ensures r.Some? ==> r.value.0 != '\0' && r.value.1 <= 0xFFFF
  {
    var c := CStr(h);
    if c == [] then None
    else
      match ScanHex(c[1..], 4)
      case None => None
      case Some(v) => Some((c[0], v.0))
  }

  /** read_fp: a five-byte header, then length+1 bytes of which the last
      is dropped. */
  function ReadFpSpec(data: seq<char>, failsAtEnd: bool, pos: nat): (r: (Read<IoBuf>, nat))
    requires pos <= |data|
    ensures pos <= r.1 <= |data|
    ensures r.0.Got? ==> r.1 >= pos + 6 && FitsFrame(r.0.value)
  {
    var (h, p1) := ReadMsgSpec(data, failsAtEnd, pos, 5);
    match h
    case Eof => (Eof, p1)
    case Fail => (Fail, p1)
    case Got(hdr) =>
      match ParseHeader(hdr)
      case None => (Fail, p1)
      case Some(cl) =>
        var (b, p2) := ReadMsgSpec(data, failsAtEnd, p1, cl.1 + 1);
        match b
        case Got(body) => (Got(IoBuf(cl.0, body[..cl.1])), p2)
        case Eof => (Eof, p2)
        case Fail => (Fail, p2)
  }

  // =====================================================================
  // Record sources

  /** Where entries are read from: a manifest (bytes, whether running off
      its end is an I/O error rather than end of file, and the cursor) or
      the network channel (its records and the cursor). */
  datatype Src =
    | FileSrc(data: seq<char>, failsAtEnd: bool, pos: nat)
    | NetSrc(records: seq<IoBuf>, pos: nat)
  {
    predicate Valid() {
      if FileSrc? then pos <= |data| else pos <= |records|
    }

    function Remaining(): nat
      requires Valid()
    {
      if FileSrc? then |data| - pos else |records| - pos
    }
  }

  /** b is a later state of the same stream as a. */
  predicate Along(a: Src, b: Src) {
    match a
    case FileSrc(d, f, p) => b.FileSrc? && b.data == d && b.failsAtEnd == f && p <= b.pos
    case NetSrc(rs, p) => b.NetSrc? && b.records == rs && p <= b.pos
  }

  /** One record from a source: read_fp for a manifest, asfd->read for the
      network. */
  function NextRecord(src: Src): (r: (Read<IoBuf>, Src))
    requires src.Valid()
    ensures r.1.Valid() && Along(src, r.1)
    ensures r.0.Got? ==> r.1.Remaining() < src.Remaining()
  {
    match src
    case FileSrc(data, fae, pos) =>
      var (r, p) := ReadFpSpec(data, fae, pos);
      (r, FileSrc(data, fae, p))
    case NetSrc(recs, pos) =>
      var (r, p) := NextIncoming(recs, pos);
      (r, NetSrc(recs, p))
  }

  /** read_stat: data-path records are stored and skipped, the attributes
      record ends the search, a control string is a clean stop, anything
      else is unexpected. Warnings are skipped on the network only. */
  function ReadStatSpec(src: Src, sb: Sbuf): (r: (Status, Sbuf, Src))
    requires src.Valid()
    ensures r.2.Valid() && Along(src, r.2)
    ensures r.0 == Ok ==> r.1.attr.Some? && r.1.attr.value.cmd == CMD_ATTRIBS
    ensures r.0 == Ok ==> r.2.Remaining() < src.Remaining()
    ensures r.1.path == sb.path && r.1.link == sb.link && r.1.endfile == sb.endfile
    ensures r.1.attr == sb.attr || r.0 == Ok
    decreases src.Remaining()
  {
    var (rd, src1) := NextRecord(src);
    match rd
    case Eof => (End, sb, src1)
    case Fail => (Err, sb, src1)
    case Got(rec) =>
      if src.NetSrc? && rec.cmd == CMD_WARNING then ReadStatSpec(src1, sb)
      else if rec.cmd == CMD_DATAPTH then ReadStatSpec(src1, sb.(datapth := Some(rec)))
      else if rec.cmd == CMD_ATTRIBS then (Ok, sb.(attr := Some(rec)), src1)
      else if IsControl(rec) then (End, sb, src1)
      else (Err, sb, src1)
  }

  /** do_sbufl_fill_from_file / do_sbufl_fill_from_net: attributes (read
      by read_stat), then the rest of the entry. */
  function FillSpec(src: Src, sb: Sbuf, phase1: bool): (r: (Status, Sbuf, Src))
    requires src.Valid()
    ensures r.2.Valid() && Along(src, r.2)
    ensures r.0 == Ok ==> r.2.Remaining() < src.Remaining()
    ensures r.0 == Ok ==> r.1.attr.Some? && r.1.attr.value.cmd == CMD_ATTRIBS && r.1.path.Some?
    ensures r.0 == Ok && IsLinkEntry(r.1) ==> r.1.link.Some? && IsLinkCmd(r.1.link.value.cmd)
    ensures r.0 == Ok && src.FileSrc? && !phase1 && IsFiledataEntry(r.1) ==>
              r.1.endfile.Some? && IsEndfileCmd(r.1.endfile.value.cmd)
  {
    var st := ReadStatSpec(src, sb);
    if st.0 != Ok then st else FillRest(st.2, st.1, phase1)
  }

  /** The part of an entry after its attributes: a path record of any
      command, then a link record for links, then (from a manifest that is
      not phase 1, for file data) an end-of-file record. Buffers are moved
      into the sbuf before their command is checked. */
  function FillRest(src: Src, sb: Sbuf, phase1: bool): (r: (Status, Sbuf, Src))
    requires src.Valid()
    ensures r.2.Valid() && Along(src, r.2)
    ensures r.0 == Ok ==> r.2.Remaining() < src.Remaining() && r.1.path.Some? && r.1.attr == sb.attr
    ensures r.0 == Ok && IsLinkEntry(r.1) ==> r.1.link.Some? && IsLinkCmd(r.1.link.value.cmd)
    ensures r.0 == Ok && src.FileSrc? && !phase1 && IsFiledataEntry(r.1) ==>
              r.1.endfile.Some? && IsEndfileCmd(r.1.endfile.value.cmd)
  {
    var np := NextRecord(src);
    match np.0
    case Eof => (End, sb, np.1)
    case Fail => (Err, sb, np.1)
    case Got(p) =>
      var sb2 := sb.(path := Some(p));
      if IsLinkCmd(p.cmd) then
        var nl := NextRecord(np.1);
        match nl.0
        case Eof => (End, sb2, nl.1)
        case Fail => (Err, sb2, nl.1)
        case Got(l) => (if IsLinkCmd(l.cmd) then Ok else Err, sb2.(link := Some(l)), nl.1)
      else if src.FileSrc? && !phase1 && IsFiledataCmd(p.cmd) then
        var ne := NextRecord(np.1);
        match ne.0
        case Eof => (End, sb2, ne.1)
        case Fail => (Err, sb2, ne.1)
        case Got(e) => (if IsEndfileCmd(e.cmd) then Ok else Err, sb2.(endfile := Some(e)), ne.1)
      else (Ok, sb2, np.1)
  }

  /** Reading a whole stream entry by entry, each into a freed sbuf, until
      the reader reports end or error (the loop of burp's manifest readers). */
  function ReadAll(src: Src, phase1: bool): (r: (seq<Sbuf>, Status))
    requires src.Valid()
    ensures r.1 != Ok
    decreases src.Remaining()
  {
    var f := FillSpec(src, EmptySbuf, phase1);
    if f.0 == Ok then
      var rest := ReadAll(f.2, phase1);
      ([f.1] + rest.0, rest.1)
    else ([], f.0)
  }

  // =====================================================================
  // The stream objects

  /** A manifest opened for reading (a FILE or a gzFile; decompression is
      not modelled): its bytes and the read cursor. */
  class Reader {
    const data: seq<char>
    const failsAtEnd: bool
    var pos: nat

    ghost predicate Valid()
      reads this
    {
      pos <= |data|
    }

    function Src(): Src
      reads this
    {
      FileSrc(data, failsAtEnd, pos)
    }

    constructor (data: seq<char>, failsAtEnd: bool)
      ensures Valid() && this.data == data && this.failsAtEnd == failsAtEnd && pos == 0
    {
      this.data := data;
      this.failsAtEnd := failsAtEnd;
      pos := 0;
    }

    /** read_fp_msg: read `len` bytes, as many as each read call delivers,
        until they are all there or a read delivers nothing. */
    method ReadMsg(len: nat) returns (r: Read<seq<char>>)
      requires Valid()
      modifies this`pos
      ensures Valid()
      ensures (r, pos) == ReadMsgSpec(data, failsAtEnd, old(pos), len)
    {
      var buf: seq<char> := [];
      var left: nat := len;
      while left > 0
        invariant old(pos) <= pos <= |data|
        invariant buf == data[old(pos)..pos] && pos == old(pos) + |buf|
        invariant |buf| + left == len
        decreases left
      {
        var n := if |data| - pos < left then |data| - pos else left;
        if n == 0 {
          pos := |data|;
          r := if failsAtEnd then Fail else Eof;
          return;
        }
        buf := buf + data[pos..pos + n];
        pos := pos + n;
        left := left - n;
      }
      r := Got(buf);
    }

    /** read_fp: one framed record. */
    method ReadFp() returns (r: Read<IoBuf>)
      requires Valid()
      modifies this`pos
      ensures Valid()
      ensures (r, pos) == ReadFpSpec(data, failsAtEnd, old(pos))
    {
      var h := ReadMsg(5);
      if !h.Got? {
        r := if h.Eof? then Eof else Fail;
        return;
      }
      var hdr := ParseHeader(h.value);
      if hdr.None? {
        r := Fail;
        return;
      }
      var len := hdr.value.1;
      var b := ReadMsg(len + 1);
      if b.Got? {
        // the trailing byte is overwritten by the terminator
        r := Got(IoBuf(hdr.value.0, b.value[..len]));
      } else {
        r := if b.Eof? then Eof else Fail;
      }
    }
  }

  /** The source a reader call works on: the manifest when there is one,
      otherwise the network channel. */
  function SrcOf(asfd: Asfd?, file: Reader?): Src
    reads asfd, file
    requires (file == null) != (asfd == null)
  {
    if file != null then file.Src() else NetSrc(asfd.incoming, asfd.inPos)
  }

  ghost predicate SrcValid(asfd: Asfd?, file: Reader?)
    reads asfd, file
  {
    && (file == null) != (asfd == null)
    && (file != null ==> file.Valid())
    && (asfd != null ==> asfd.Valid())
  }

  /** read_stat */
  method ReadStat(asfd: Asfd?, file: Reader?, sb: Sbuf) returns (st: Status, sb': Sbuf)
    requires SrcValid(asfd, file)
    modifies asfd, file
    ensures SrcValid(asfd, file)
    ensures (st, sb', SrcOf(asfd, file)) == ReadStatSpec(old(SrcOf(asfd, file)), sb)
    ensures asfd != null ==> asfd.sent == old(asfd.sent) && asfd.room == old(asfd.room)
  {
    sb' := sb;
    while true
      invariant SrcValid(asfd, file)
      invariant SrcOf(asfd, file).Valid()
      invariant ReadStatSpec(SrcOf(asfd, file), sb') == ReadStatSpec(old(SrcOf(asfd, file)), sb)
      invariant asfd != null ==> asfd.sent == old(asfd.sent) && asfd.room == old(asfd.room)
      decreases SrcOf(asfd, file).Remaining()
    {
      ghost var before := SrcOf(asfd, file);
      var r: Read<IoBuf>;
      if file != null {
        r := file.ReadFp();
      } else {
        r := asfd.Read();
      }
      assert (r, SrcOf(asfd, file)) == NextRecord(before);
      if !r.Got? {
        st := StatusOf(r);
        return;
      }
      var rec := r.value;
      if file == null && rec.cmd == CMD_WARNING {
        // a warning from the peer is logged and skipped
        continue;
      }
      if rec.cmd == CMD_DATAPTH {
        sb' := sb'.(datapth := Some(rec));
      } else if rec.cmd == CMD_ATTRIBS {
        st, sb' := Ok, sb'.(attr := Some(rec));
        return;
      } else if IsControl(rec) {
        st := End;
        return;
      } else {
        st := Err;
        return;
      }
    }
  }

  /** do_sbufl_fill_from_file */
  method FillFromFile(file: Reader, sb: Sbuf, phase1: bool) returns (st: Status, sb': Sbuf)
    requires file.Valid()
    modifies file
    ensures file.Valid()
    ensures (st, sb', file.Src()) == FillSpec(old(file.Src()), sb, phase1)
  {
    st, sb' := ReadStat(null, file, sb);
    if st != Ok {
      return;
    }
    var rp := file.ReadFp();
    if !rp.Got? {
      st := StatusOf(rp);
      return;
    }
    sb' := sb'.(path := Some(rp.value));
    if IsLinkCmd(rp.value.cmd) {
      var rl := file.ReadFp();
      if !rl.Got? {
        st := StatusOf(rl);
        return;
      }
      sb' := sb'.(link := Some(rl.value));
      st := if IsLinkCmd(rl.value.cmd) then Ok else Err;
    } else if !phase1 && IsFiledataCmd(rp.value.cmd) {
      var re := file.ReadFp();
      if !re.Got? {
        st := StatusOf(re);
        return;
      }
      sb' := sb'.(endfile := Some(re.value));
      st := if IsEndfileCmd(re.value.cmd) then Ok else Err;
    }
  }

  /** do_sbufl_fill_from_net */
  method FillFromNet(asfd: Asfd, sb: Sbuf) returns (st: Status, sb': Sbuf)
    requires asfd.Valid()
    modifies asfd
    ensures asfd.Valid()
    ensures (st, sb', NetSrc(asfd.incoming, asfd.inPos))
            == FillSpec(NetSrc(asfd.incoming, old(asfd.inPos)), sb, false)
    ensures asfd.sent == old(asfd.sent) && asfd.room == old(asfd.room)
  {
    st, sb' := ReadStat(asfd, null, sb);
    if st != Ok {
      return;
    }
    var rp := asfd.Read();
    if !rp.Got? {
      st := StatusOf(rp);
      return;
    }
    sb' := sb'.(path := Some(rp.value));
    if IsLinkCmd(rp.value.cmd) {
      var rl := asfd.Read();
      if !rl.Got? {
        st := StatusOf(rl);
        return;
      }
      sb' := sb'.(link := Some(rl.value));
      st := if IsLinkCmd(rl.value.cmd) then Ok else Err;
    }
  }

  /** sbufl_fill: from the manifest when one is given, else from the network. */
  method SbuflFill(sb: Sbuf, asfd: Asfd?, file: Reader?) returns (st: Status, sb': Sbuf)
    requires file != null ==> file.Valid()
    requires file == null ==> asfd != null && asfd.Valid()
    modifies asfd, file
    ensures file != null ==> file.Valid() && (st, sb', file.Src()) == FillSpec(old(file.Src()), sb, false)
    ensures file != null && asfd != null ==> unchanged(asfd)
    ensures file == null ==>
              (&& asfd.Valid() && asfd.sent == old(asfd.sent) && asfd.room == old(asfd.room)
               && (st, sb', NetSrc(asfd.incoming, asfd.inPos))
                  == FillSpec(NetSrc(asfd.incoming, old(asfd.inPos)), sb, false))
  {
    if file != null {
      st, sb' := FillFromFile(file, sb, false);
    } else {
      st, sb' := FillFromNet(asfd, sb);
    }
  }

  /** sbufl_fill_phase1: a phase-1 manifest, which has no end-of-file records. */
  method SbuflFillPhase1(sb: Sbuf, file: Reader) returns (st: Status, sb': Sbuf)
    requires file.Valid()
    modifies file
    ensures file.Valid()
    ensures (st, sb', file.Src()) == FillSpec(old(file.Src()), sb, true)
  {
    st, sb' := FillFromFile(file, sb, true);
  }

  // =====================================================================
  // Writing

  /** What the writer needs: the buffers it sends unconditionally are set. */
  predicate Writable(sb: Sbuf, writeEndfile: bool) {
    sb.path.Some? ==> sb.attr.Some? && (writeEndfile && IsFiledataEntry(sb) ==> sb.endfile.Some?)
  }

  /** The records sbufl_to_fp/_zp write for an entry, in order: nothing
      without a path; otherwise the data path if set, the attributes, the
      path, the link if set, and the end-of-file record when asked for and
      the entry carries file data. */
  function ManifestRecords(sb: Sbuf, writeEndfile: bool): seq<IoBuf>
    requires Writable(sb, writeEndfile)
  {
    if sb.path.None? then []
    else
      (if sb.datapth.Some? then [sb.datapth.value] else [])
      + [sb.attr.value, sb.path.value]
      + (if sb.link.Some? then [sb.link.value] else [])
      + (if writeEndfile && IsFiledataEntry(sb) then [sb.endfile.value] else [])
  }

  /** A manifest being written (a FILE or a gzFile; compression is not
      modelled): the records written so far, and how many more records can
      be written before a write fails. Its bytes are their frames. */
  class Sink {
    var written: seq<IoBuf>
    var room: nat

    function Bytes(): seq<char>
      reads this
    {
      FrameAll(written)
    }

    constructor (room: nat)
      ensures written == [] && this.room == room
    {
      written := [];
      this.room := room;
    }

    /** iobuf_send_msg_fp / iobuf_send_msg_zp */
    method SendMsg(rec: IoBuf) returns (ok: bool)
      modifies this
      ensures ok <==> old(room) > 0
      ensures written == old(written) + Take([rec], old(room))
      ensures room == old(room) - |Take([rec], old(room))|
    {
      ok := room > 0;
      if ok {
        written := written + [rec];
        room := room - 1;
      }
    }
  }

  lemma {:induction false} FrameAllAppend(a: seq<IoBuf>, b: seq<IoBuf>)
    ensures FrameAll(a + b) == FrameAll(a) + FrameAll(b)
  {
    if a != [] {
      assert (a + b)[1..] == a[1..] + b;
      FrameAllAppend(a[1..], b);
    } else {
      assert a + b == b;
    }
  }

  lemma AppendParts<T>(a: seq<T>, b: seq<T>)
    ensures (a + b)[..|a|] == a && (a + b)[|a|..] == b
  {
  }

  /** Where each buffer sits in the records written for an entry. */
  lemma ManifestRecordsIndex(sb: Sbuf, writeEndfile: bool)
    requires Writable(sb, writeEndfile) && sb.path.Some?
    ensures var recs := ManifestRecords(sb, writeEndfile);
            var d := if sb.datapth.Some? then 1 else 0;
            var l := if sb.link.Some? then 1 else 0;
            var e := if writeEndfile && IsFiledataEntry(sb) then 1 else 0;
            && |recs| == d + 2 + l + e
            && (d == 1 ==> recs[0] == sb.datapth.value)
            && recs[d] == sb.attr.value && recs[d + 1] == sb.path.value
            && (l == 1 ==> recs[d + 2] == sb.link.value)
            && (e == 1 ==> recs[d + 2 + l] == sb.endfile.value)
  {
  }

  /** The sink started with `o` written and room `r`, and the first k of
      `recs` went out since. */
  ghost predicate Progress(mp: Sink, o: seq<IoBuf>, r: nat, recs: seq<IoBuf>, k: nat)
    reads mp
  {
    k <= |recs| && k <= r && mp.written == o + recs[..k] && mp.room == r - k
  }

  /** The sink started with `o` written and room `r`, and `recs` were sent
      to it in order up to the first write that failed. */
  ghost predicate SentAll(mp: Sink, o: seq<IoBuf>, r: nat, recs: seq<IoBuf>)
    reads mp
  {
    mp.written == o + Take(recs, r) && mp.room == r - |Take(recs, r)|
  }

  /** One iobuf_send_msg_fp/_zp call of the writer: the k-th of `recs`. */
  method Put(mp: Sink, rec: IoBuf, ghost o: seq<IoBuf>, ghost r: nat, ghost recs: seq<IoBuf>, ghost k: nat)
    returns (ok: bool)
    requires Progress(mp, o, r, recs, k) && k < |recs| && recs[k] == rec
    modifies mp
    ensures ok ==> Progress(mp, o, r, recs, k + 1)
    ensures !ok ==> SentAll(mp, o, r, recs) && r < |recs|
  {
    ok := mp.SendMsg(rec);
    SendNext(o, recs, k, r, mp.written);
  }

  /** sbufl_to_fp / sbufl_to_zp: the two differ only in the kind of sink.
      The records of the entry go out in order until a write fails. */
  method ToSink(sb: Sbuf, mp: Sink, writeEndfile: bool) returns (ret: int)
    requires Writable(sb, writeEndfile)
    modifies mp
    ensures SentAll(mp, old(mp.written), old(mp.room), ManifestRecords(sb, writeEndfile))
    ensures ret == 0 <==> |ManifestRecords(sb, writeEndfile)| <= old(mp.room)
    ensures ret == 0 || ret == -1
  {
    ghost var recs := ManifestRecords(sb, writeEndfile);
    ghost var o, r := mp.written, mp.room;
    if sb.path.None? {
      assert o + [] == o;
      return 0;
    }
    ManifestRecordsIndex(sb, writeEndfile);
    ghost var k := 0;
    assert o + recs[..0] == o;
    var ok: bool;
    if sb.datapth.Some? {
      ok := Put(mp, sb.datapth.value, o, r, recs, k);
      if !ok { return -1; }
      k := k + 1;
    }
    ok := Put(mp, sb.attr.value, o, r, recs, k);
    if !ok { return -1; }
    k := k + 1;
    ok := Put(mp, sb.path.value, o, r, recs, k);
    if !ok { return -1; }
    k := k + 1;
    if sb.link.Some? {
      ok := Put(mp, sb.link.value, o, r, recs, k);
      if !ok { return -1; }
      k := k + 1;
    }
    if writeEndfile && IsFiledataEntry(sb) {
      ok := Put(mp, sb.endfile.value, o, r, recs, k);
      if !ok { return -1; }
      k := k + 1;
    }
    assert recs[..k] == recs == Take(recs, r);
    return 0;
  }

  /** sbufl_to_manifest (full manifest, with end-of-file records) and
      sbufl_to_manifest_phase1 (without): the plain file is preferred to
      the gzip stream, and with neither the call fails. */
  method ToManifest(sb: Sbuf, mp: Sink?, zp: Sink?, phase1: bool) returns (ret: int)
    requires Writable(sb, !phase1)
    modifies mp, zp
    ensures mp == null && zp == null ==> ret == -1
    ensures var s := if mp != null then mp else zp;
            s != null ==>
              && SentAll(s, old(s.written), old(s.room), ManifestRecords(sb, !phase1))
              && (ret == 0 <==> |ManifestRecords(sb, !phase1)| <= old(s.room))
    ensures mp != null && zp != null && mp != zp ==> unchanged(zp)
  {
    if mp != null {
      ret := ToSink(sb, mp, !phase1);
    } else if zp != null {
      ret := ToSink(sb, zp, !phase1);
    } else {
      ret := -1;
    }
  }

  // =====================================================================
  // Properties

  /** The header written for a record parses back to its command and
      length. */
  lemma HeaderParses(cmd: Cmd, len: nat)
    requires cmd != '\0' && len <= 0xFFFF
    ensures |[cmd] + Hex04(len)| == 5
    ensures ParseHeader([cmd] + Hex04(len)) == Some((cmd, len))
  {
    Hex04Value(len);
    var hdr := [cmd] + Hex04(len);
    assert '\0' !in hdr by {
      forall i | 0 <= i < 5 ensures hdr[i] != '\0' {
        if i > 0 {
          assert hdr[i] == Hex04(len)[i - 1];
          assert IsHexDigit(Hex04(len)[i - 1]);
        }
      }
    }
    NoNulCStr(hdr);
    ScanHex04(len, []);
    assert hdr[1..] == Hex04(len) + [];
  }

  /** A framed record reads back as itself, whatever its trailing byte,
      and the cursor ends just past it. */
  lemma ReadFrame(data: seq<char>, fae: bool, p: nat, rec: IoBuf, trailer: char)
    requires FitsFrame(rec)
    requires p + |rec.buf| + 6 <= |data|
    requires data[p..p + |rec.buf| + 6] == [rec.cmd] + Hex04(|rec.buf|) + rec.buf + [trailer]
    ensures ReadFpSpec(data, fae, p).0 == Got(rec)
    ensures ReadFpSpec(data, fae, p).1 == p + |rec.buf| + 6
  {
    var len := |rec.buf|;
    HeaderParses(rec.cmd, len);
    var frame := data[p..p + len + 6];
    assert data[p..p + 5] == frame[..5] == [rec.cmd] + Hex04(len);
    assert data[p + 5..p + len + 6] == frame[5..] == rec.buf + [trailer];
  }

  lemma ReadFrameAt(data: seq<char>, fae: bool, p: nat, rec: IoBuf)
    requires FitsFrame(rec)
    requires p + |Frame(rec)| <= |data| && data[p..p + |Frame(rec)|] == Frame(rec)
    ensures NextRecord(FileSrc(data, fae, p)).0 == Got(rec)
    ensures NextRecord(FileSrc(data, fae, p)).1 == FileSrc(data, fae, p + |Frame(rec)|)
  {
    Hex04Value(|rec.buf|);
    ReadFrame(data, fae, p, rec, '\n');
  }

  /** A header that is all there but does not parse is a read error. */
  lemma BadHeaderFails(data: seq<char>, fae: bool, p: nat)
    requires p + 5 <= |data|
    requires data[p] == '\0' || !IsHexDigit(data[p + 1])
    ensures ReadFpSpec(data, fae, p) == (Fail, p + 5)
  {
    var hdr := data[p..p + 5];
    assert hdr[0] == data[p] && hdr[1] == data[p + 1];
    var c := CStr(hdr);
    if c != [] {
      assert c[0] == hdr[0] && |c| >= 1;
      if |c| >= 2 {
        assert c[1] == hdr[1];
      }
      assert ScanHex(c[1..], 4).None?;
    }
  }

  /** A payload cut short by the end of a manifest is end of file (1),
      not a separate error, unless the stream fails at its end. */
  lemma TruncatedPayloadIsEof(data: seq<char>, fae: bool, p: nat, rec: IoBuf)
    requires FitsFrame(rec)
    requires p + 5 <= |data| < p + |rec.buf| + 6
    requires data[p..p + 5] == [rec.cmd] + Hex04(|rec.buf|)
    ensures ReadFpSpec(data, fae, p).0 == (if fae then Fail else Eof)
  {
    var len := |rec.buf|;
    Hex04Value(len);
    var hdr := data[p..p + 5];
    assert '\0' !in hdr by {
      forall i | 0 <= i < 5 ensures hdr[i] != '\0' {
        if i > 0 { assert IsHexDigit(Hex04(len)[i - 1]); }
      }
    }
    NoNulCStr(hdr);
    ScanHex04(len, []);
    assert hdr[1..] == Hex04(len) + [];
    assert ParseHeader(hdr) == Some((rec.cmd, len));
  }

  /** `data` holds the frames of `recs` from position p. */
  predicate FramesAt(data: seq<char>, p: nat, recs: seq<IoBuf>) {
    p + |FrameAll(recs)| <= |data| && data[p..p + |FrameAll(recs)|] == FrameAll(recs)
  }

  /** Reading `recs` one at a time from `src` yields exactly them and
      leaves the source at `dst`. */
  predicate Yields(src: Src, recs: seq<IoBuf>, dst: Src)
    requires src.Valid()
    decreases |recs|
  {
    if recs == [] then src == dst
    else NextRecord(src).0 == Got(recs[0]) && Yields(NextRecord(src).1, recs[1..], dst)
  }

  lemma {:induction false} FramesAtCons(data: seq<char>, p: nat, recs: seq<IoBuf>)
    requires recs != [] && FramesAt(data, p, recs)
    ensures var n := |Frame(recs[0])|;
            && p + n <= |data| && data[p..p + n] == Frame(recs[0])
            && FramesAt(data, p + n, recs[1..])
            && p + n + |FrameAll(recs[1..])| == p + |FrameAll(recs)|
  {
    FrameAllCons(recs);
    SliceCons(data, p, FrameAll(recs), Frame(recs[0]), FrameAll(recs[1..]));
  }

  /** The two halves of a slice that holds a + b. */
  lemma SliceCons<T>(data: seq<T>, p: nat, w: seq<T>, a: seq<T>, b: seq<T>)
    requires w == a + b && p + |w| <= |data| && data[p..p + |w|] == w
    ensures |a| + |b| == |w|
    ensures p + |a| <= |data| && data[p..p + |a|] == a
    ensures data[p + |a|..p + |a| + |b|] == b
  {
    SliceSplit(data, p, a, b);
  }

  lemma FrameAllCons(recs: seq<IoBuf>)
    requires recs != []
    ensures FrameAll(recs) == Frame(recs[0]) + FrameAll(recs[1..])
  {
  }

  lemma SliceSplit<T>(data: seq<T>, p: nat, a: seq<T>, b: seq<T>)
    requires p + |a| + |b| <= |data| && data[p..p + |a| + |b|] == a + b
    ensures data[p..p + |a|] == a && data[p + |a|..p + |a| + |b|] == b
  {
    var m := |a| + |b|;
    AppendParts(a, b);
    assert data[p..p + |a|] == data[p..p + m][..|a|];
    assert data[p + |a|..p + m] == data[p..p + m][|a|..];
  }

  /** One frame read off the front of a run of frames. */
  lemma FrameStep(data: seq<char>, fae: bool, p: nat, recs: seq<IoBuf>) returns (q: nat)
    requires recs != [] && FitsFrame(recs[0]) && FramesAt(data, p, recs)
    ensures NextRecord(FileSrc(data, fae, p)).0 == Got(recs[0])
    ensures NextRecord(FileSrc(data, fae, p)).1 == FileSrc(data, fae, q)
    ensures FramesAt(data, q, recs[1..])
    ensures q + |FrameAll(recs[1..])| == p + |FrameAll(recs)|
  {
    q := p + |Frame(recs[0])|;
    FramesAtCons(data, p, recs);
    ReadFrameAt(data, fae, p, recs[0]);
  }

  lemma {:induction false} FramesYield(data: seq<char>, fae: bool, p: nat, recs: seq<IoBuf>)
    requires forall i :: 0 <= i < |recs| ==> FitsFrame(recs[i])
    requires FramesAt(data, p, recs)
    ensures Yields(FileSrc(data, fae, p), recs, FileSrc(data, fae, p + |FrameAll(recs)|))
    decreases |recs|
  {
    if recs != [] {
      var q := FrameStep(data, fae, p, recs);
      var rest := recs[1..];
      AllFitTail(recs);
      FramesYield(data, fae, q, rest);
      var dst := FileSrc(data, fae, q + |FrameAll(rest)|);
      assert dst == FileSrc(data, fae, p + |FrameAll(recs)|);
      YieldsCons(FileSrc(data, fae, p), recs, FileSrc(data, fae, q), dst);
    }
  }

  lemma AllFitTail(recs: seq<IoBuf>)
    requires recs != [] && forall i :: 0 <= i < |recs| ==> FitsFrame(recs[i])
    ensures forall i :: 0 <= i < |recs[1..]| ==> FitsFrame(recs[1..][i])
  {
    forall i | 0 <= i < |recs[1..]| ensures FitsFrame(recs[1..][i]) {
      assert recs[1..][i] == recs[i + 1];
    }
  }

  lemma YieldsCons(src: Src, recs: seq<IoBuf>, mid: Src, dst: Src)
    requires src.Valid() && recs != []
    requires NextRecord(src).0 == Got(recs[0]) && NextRecord(src).1 == mid
    requires Yields(mid, recs[1..], dst)
    ensures Yields(src, recs, dst)
  {
  }

  lemma {:induction false} RecordsYield(records: seq<IoBuf>, p: nat, recs: seq<IoBuf>)
    requires p + |recs| <= |records| && records[p..p + |recs|] == recs
    ensures Yields(NetSrc(records, p), recs, NetSrc(records, p + |recs|))
    decreases |recs|
  {
    if recs != [] {
      assert records[p] == recs[0];
      assert records[p + 1..p + |recs|] == recs[1..];
      RecordsYield(records, p + 1, recs[1..]);
    }
  }

  lemma YieldsAppend(src: Src, a: seq<IoBuf>, b: seq<IoBuf>, dst: Src) returns (mid: Src)
    requires src.Valid()
    requires Yields(src, a + b, dst)
    ensures mid.Valid() && Yields(src, a, mid) && Yields(mid, b, dst)
    decreases |a|
  {
    if a == [] {
      assert a + b == b;
      mid := src;
    } else {
      var s1 := NextRecord(src).1;
      assert (a + b)[1..] == a[1..] + b;
      mid := YieldsAppend(s1, a[1..], b, dst);
    }
  }

  /** The shape of an entry as burp builds it, so that what is written for
      it reads back as the same entry. `withEndfile` says whether its
      stream carries end-of-file records. */
  predicate WellFormed(sb: Sbuf, withEndfile: bool) {
    && sb.path.Some? && sb.attr.Some?
    && sb.attr.value.cmd == CMD_ATTRIBS && FitsFrame(sb.attr.value)
    && FitsFrame(sb.path.value)
    && (sb.datapth.Some? ==> sb.datapth.value.cmd == CMD_DATAPTH && FitsFrame(sb.datapth.value))
    && (sb.link.Some? <==> IsLinkCmd(sb.path.value.cmd))
    && (sb.link.Some? ==> IsLinkCmd(sb.link.value.cmd) && FitsFrame(sb.link.value))
    && (sb.endfile.Some? <==> withEndfile && IsFiledataCmd(sb.path.value.cmd))
    && (sb.endfile.Some? ==> IsEndfileCmd(sb.endfile.value.cmd) && FitsFrame(sb.endfile.value))
  }

  lemma WellFormedRecordsFit(sb: Sbuf, withEndfile: bool)
    requires WellFormed(sb, withEndfile)
    ensures Writable(sb, withEndfile)
    ensures var recs := ManifestRecords(sb, withEndfile);
            forall i :: 0 <= i < |recs| ==> FitsFrame(recs[i])
  {
  }

  /** The attributes (after an optional data path) of a well-formed
      entry are read by read_stat into a freed sbuf. */
  /** The records of an entry up to its attributes. */
  function HeadRecords(sb: Sbuf): seq<IoBuf>
    requires sb.attr.Some?
  {
    (if sb.datapth.Some? then [sb.datapth.value] else []) + [sb.attr.value]
  }

  /** The records of an entry after its attributes. */
  function RestRecords(sb: Sbuf): seq<IoBuf>
    requires sb.path.Some?
  {
    [sb.path.value]
    + (if sb.link.Some? then [sb.link.value] else [])
    + (if sb.endfile.Some? then [sb.endfile.value] else [])
  }

  lemma ManifestRecordsParts(sb: Sbuf, withEndfile: bool)
    requires WellFormed(sb, withEndfile)
    ensures Writable(sb, withEndfile)
    ensures ManifestRecords(sb, withEndfile) == HeadRecords(sb) + RestRecords(sb)
  {
  }

  lemma StatYields(src: Src, sb: Sbuf, s1: Src)
    requires src.Valid()
    requires sb.attr.Some? && sb.attr.value.cmd == CMD_ATTRIBS
    requires sb.datapth.Some? ==> sb.datapth.value.cmd == CMD_DATAPTH
    requires Yields(src, HeadRecords(sb), s1)
    ensures ReadStatSpec(src, EmptySbuf) == (Ok, EmptySbuf.(datapth := sb.datapth, attr := sb.attr), s1)
  {
    if sb.datapth.Some? {
      var recs := [sb.datapth.value, sb.attr.value];
      assert (if sb.datapth.Some? then [sb.datapth.value] else []) + [sb.attr.value] == recs;
      assert recs[1..] == [sb.attr.value] && [sb.attr.value][1..] == [];
      var mid := NextRecord(src).1;
      assert Yields(mid, [sb.attr.value], s1);
      assert Yields(NextRecord(mid).1, [], s1);
      assert ReadStatSpec(src, EmptySbuf) == ReadStatSpec(mid, EmptySbuf.(datapth := sb.datapth));
    } else {
      assert [] + [sb.attr.value] == [sb.attr.value];
      assert [sb.attr.value][1..] == [];
      assert Yields(NextRecord(src).1, [], s1);
    }
  }

  /** The path record and what follows it, for a well-formed entry. */
  lemma RestYields(src: Src, sb: Sbuf, phase1: bool, dst: Src)
    requires src.Valid()
    requires WellFormed(sb, src.FileSrc? && !phase1)
    requires Yields(src, RestRecords(sb), dst)
    ensures FillRest(src, EmptySbuf.(datapth := sb.datapth, attr := sb.attr), phase1) == (Ok, sb, dst)
  {
    var rest := (if sb.link.Some? then [sb.link.value] else [])
                + (if sb.endfile.Some? then [sb.endfile.value] else []);
    var s2 := NextRecord(src).1;
    assert [sb.path.value]
           + (if sb.link.Some? then [sb.link.value] else [])
           + (if sb.endfile.Some? then [sb.endfile.value] else []) == [sb.path.value] + rest;
    assert ([sb.path.value] + rest)[1..] == rest;
    assert Yields(s2, rest, dst);
    if rest != [] {
      assert |rest| == 1 && rest[1..] == [];
      assert Yields(NextRecord(s2).1, [], dst);
    }
  }

  /** The record-level round trip: a source that yields the records
      written for a well-formed entry gives that entry back, read into a
      freed sbuf, for a manifest and for the network alike. */
  lemma FillYields(src: Src, sb: Sbuf, phase1: bool, dst: Src)
    requires src.Valid()
    requires WellFormed(sb, src.FileSrc? && !phase1)
    requires Yields(src, ManifestRecords(sb, src.FileSrc? && !phase1), dst)
    ensures FillSpec(src, EmptySbuf, phase1) == (Ok, sb, dst)
  {
    ManifestRecordsParts(sb, src.FileSrc? && !phase1);
    var s1 := YieldsAppend(src, HeadRecords(sb), RestRecords(sb), dst);
    StatYields(src, sb, s1);
    YieldsAlong(src, HeadRecords(sb), s1);
    RestYields(s1, sb, phase1, dst);
  }

  lemma {:induction false} YieldsAlong(src: Src, recs: seq<IoBuf>, dst: Src)
    requires src.Valid() && Yields(src, recs, dst)
    ensures dst.Valid() && Along(src, dst)
    decreases |recs|
  {
    if recs != [] {
      YieldsAlong(NextRecord(src).1, recs[1..], dst);
    }
  }

  /** sbufl_to_manifest then sbufl_fill, and sbufl_to_manifest_phase1 then
      sbufl_fill_phase1: the entry written at p is read back unchanged and
      the cursor ends just past it. */
  lemma ManifestRoundTrip(sb: Sbuf, phase1: bool, data: seq<char>, fae: bool, p: nat)
    requires WellFormed(sb, !phase1)
    requires p <= |data| && FramesAt(data, p, ManifestRecords(sb, !phase1))
    ensures var r := FillSpec(FileSrc(data, fae, p), EmptySbuf, phase1);
            r.0 == Ok && r.1 == sb && r.2.pos == p + |FrameAll(ManifestRecords(sb, !phase1))|
  {
    var recs := ManifestRecords(sb, !phase1);
    var src, dst := FileSrc(data, fae, p), FileSrc(data, fae, p + |FrameAll(recs)|);
    WellFormedRecordsFit(sb, !phase1);
    FramesYield(data, fae, p, recs);
    FillYields(src, sb, phase1, dst);
  }

  /** The bytes of a manifest holding `sbs` in order. */
  function ManifestOf(sbs: seq<Sbuf>, withEndfile: bool): seq<char>
    requires forall i :: 0 <= i < |sbs| ==> WellFormed(sbs[i], withEndfile)
  {
    if sbs == [] then []
    else
      WellFormedRecordsFit(sbs[0], withEndfile);
      FrameAll(ManifestRecords(sbs[0], withEndfile)) + ManifestOf(sbs[1..], withEndfile)
  }

  /** A whole manifest reads back as the entries written to it, followed by
      a clean end (an error instead when the stream fails at its end). */
  lemma {:induction false} ManifestReadAll(sbs: seq<Sbuf>, phase1: bool, data: seq<char>, fae: bool, p: nat)
    requires forall i :: 0 <= i < |sbs| ==> WellFormed(sbs[i], !phase1)
    requires p <= |data| && data[p..] == ManifestOf(sbs, !phase1)
    ensures var r := ReadAll(FileSrc(data, fae, p), phase1);
            r.0 == sbs && r.1 == if fae then Err else End
    decreases |sbs|
  {
    if sbs == [] {
      assert |data| == p;
      ReadAllAtEnd(data, fae, phase1);
    } else {
      var sb, rest := sbs[0], sbs[1..];
      ManifestOfCons(sbs, !phase1);
      var q := ManifestHead(sb, ManifestOf(rest, !phase1), phase1, data, fae, p);
      ManifestReadAll(rest, phase1, data, fae, q);
      ReadAllFile(data, fae, p, q, phase1);
      assert sbs == [sb] + rest;
    }
  }

  /** Data holding head + tail from p holds head at p and tail after it. */
  lemma SuffixSplit(data: seq<char>, p: nat, head: seq<char>, tail: seq<char>)
    requires p <= |data| && data[p..] == head + tail
    ensures p + |head| <= |data|
    ensures data[p..p + |head|] == head && data[p + |head|..] == tail
  {
    AppendParts(head, tail);
    assert data[p..p + |head|] == data[p..][..|head|];
    assert data[p + |head|..] == data[p..][|head|..];
  }

  /** The first entry of a manifest reads back, and the rest of the
      manifest starts where it ends. */
  lemma ManifestHead(sb: Sbuf, tail: seq<char>, phase1: bool, data: seq<char>, fae: bool, p: nat) returns (q: nat)
    requires WellFormed(sb, !phase1) && Writable(sb, !phase1)
    requires p <= |data| && data[p..] == FrameAll(ManifestRecords(sb, !phase1)) + tail
    ensures q <= |data| && data[q..] == tail
    ensures var f := FillSpec(FileSrc(data, fae, p), EmptySbuf, phase1);
            f.0 == Ok && f.1 == sb && f.2.pos == q
  {
    var head := FrameAll(ManifestRecords(sb, !phase1));
    SuffixSplit(data, p, head, tail);
    ManifestRoundTrip(sb, phase1, data, fae, p);
    q := p + |head|;
  }

  /** One entry read by ReadAll. */
  lemma ReadAllStep(src: Src, phase1: bool)
    requires src.Valid() && FillSpec(src, EmptySbuf, phase1).0 == Ok
    ensures var f := FillSpec(src, EmptySbuf, phase1);
            var r := ReadAll(src, phase1);
            r.0 == [f.1] + ReadAll(f.2, phase1).0 && r.1 == ReadAll(f.2, phase1).1
  {
  }

  /** A manifest is its first entry's frames followed by the rest. */
  lemma ManifestOfCons(sbs: seq<Sbuf>, withEndfile: bool)
    requires sbs != [] && forall i :: 0 <= i < |sbs| ==> WellFormed(sbs[i], withEndfile)
    ensures WellFormed(sbs[0], withEndfile) && Writable(sbs[0], withEndfile)
    ensures forall i :: 0 <= i < |sbs| - 1 ==> WellFormed(sbs[1..][i], withEndfile)
    ensures ManifestOf(sbs, withEndfile)
            == FrameAll(ManifestRecords(sbs[0], withEndfile)) + ManifestOf(sbs[1..], withEndfile)
  {
    WellFormedRecordsFit(sbs[0], withEndfile);
  }

  /** One entry read by ReadAll from a manifest file. */
  lemma ReadAllFile(data: seq<char>, fae: bool, p: nat, q: nat, phase1: bool)
    requires p <= |data|
    requires FillSpec(FileSrc(data, fae, p), EmptySbuf, phase1).0 == Ok
    requires FillSpec(FileSrc(data, fae, p), EmptySbuf, phase1).2.pos == q
    ensures q <= |data|
    ensures var r := ReadAll(FileSrc(data, fae, p), phase1);
            var n := ReadAll(FileSrc(data, fae, q), phase1);
            r.0 == [FillSpec(FileSrc(data, fae, p), EmptySbuf, phase1).1] + n.0 && r.1 == n.1
  {
    ReadAllStep(FileSrc(data, fae, p), phase1);
    assert FillSpec(FileSrc(data, fae, p), EmptySbuf, phase1).2 == FileSrc(data, fae, q);
  }

  /** At the end of a manifest there are no more entries. */
  lemma ReadAllAtEnd(data: seq<char>, fae: bool, phase1: bool)
    ensures var r := ReadAll(FileSrc(data, fae, |data|), phase1);
            r.0 == [] && r.1 == if fae then Err else End
  {
    var src := FileSrc(data, fae, |data|);
    assert ReadFpSpec(data, fae, |data|).0 == if fae then Fail else Eof;
    assert NextRecord(src).0 == if fae then Fail else Eof;
    assert ReadStatSpec(src, EmptySbuf).0 == if fae then Err else End;
    assert FillSpec(src, EmptySbuf, phase1).0 == if fae then Err else End;
  }

  /** A record other than a data path, the attributes or a generic
      control record where an entry must start is unexpected: an entry
      whose path comes before its attributes is refused. */
  lemma OrderEnforced(src: Src, sb: Sbuf, phase1: bool, rec: IoBuf)
    requires src.Valid()
    requires NextRecord(src).0 == Got(rec)
    requires rec.cmd != CMD_DATAPTH && rec.cmd != CMD_ATTRIBS && rec.cmd != CMD_GEN
    requires src.NetSrc? ==> rec.cmd != CMD_WARNING
    ensures FillSpec(src, sb, phase1).0 == Err
  {
  }

  /** Each of the five control strings, at the start of an entry, ends the
      read cleanly (1); any other generic record is unexpected (-1). */
  lemma ControlStops(src: Src, sb: Sbuf, phase1: bool, rec: IoBuf)
    requires src.Valid()
    requires NextRecord(src).0 == Got(rec) && rec.cmd == CMD_GEN
    ensures FillSpec(src, sb, phase1).0 == if IsControl(rec) then End else Err
  {
  }

  /** On the network a warning before an entry is skipped: the result is
      that of reading from the record after it. (In a manifest the same
      record is unexpected: OrderEnforced.) */
  lemma NetWarningSkipped(records: seq<IoBuf>, p: nat, sb: Sbuf, phase1: bool)
    requires p < |records| && records[p].cmd == CMD_WARNING
    ensures FillSpec(NetSrc(records, p), sb, phase1) == FillSpec(NetSrc(records, p + 1), sb, phase1)
  {
    assert ReadStatSpec(NetSrc(records, p), sb) == ReadStatSpec(NetSrc(records, p + 1), sb);
  }

  /** A data-path record where an entry starts is stored in the sbuf, and
      reading goes on from the record after it, from a manifest or the
      network alike. */
  lemma DatapathStored(src: Src, sb: Sbuf, rec: IoBuf)
    requires src.Valid() && NextRecord(src).0 == Got(rec) && rec.cmd == CMD_DATAPTH
    ensures ReadStatSpec(src, sb) == ReadStatSpec(NextRecord(src).1, sb.(datapth := Some(rec)))
  {
  }

  /** A run of data-path records leaves the last of them in the sbuf. */
  lemma {:induction false} DatapathsStored(src: Src, ds: seq<IoBuf>, mid: Src, sb: Sbuf)
    requires src.Valid() && ds != [] && Yields(src, ds, mid)
    requires forall i :: 0 <= i < |ds| ==> ds[i].cmd == CMD_DATAPTH
    ensures mid.Valid()
    ensures ReadStatSpec(src, sb) == ReadStatSpec(mid, sb.(datapth := Some(ds[|ds| - 1])))
    decreases |ds|
  {
    var next := NextRecord(src).1;
    DatapathStored(src, sb, ds[0]);
    if |ds| == 1 {
      assert Yields(next, ds[1..], mid);
    } else {
      assert ds[1..][|ds| - 2] == ds[|ds| - 1];
      DatapathsStored(next, ds[1..], mid, sb.(datapth := Some(ds[0])));
    }
  }

  /** Of any number of data-path records before the attributes, the last is
      the one the entry keeps, and reading stops just past the attributes. */
  lemma LastDatapathKept(src: Src, ds: seq<IoBuf>, attr: IoBuf, dst: Src, sb: Sbuf)
    requires src.Valid() && ds != [] && Yields(src, ds + [attr], dst)
    requires forall i :: 0 <= i < |ds| ==> ds[i].cmd == CMD_DATAPTH
    requires attr.cmd == CMD_ATTRIBS
    ensures ReadStatSpec(src, sb) == (Ok, sb.(datapth := Some(ds[|ds| - 1]), attr := Some(attr)), dst)
  {
    var mid := YieldsAppend(src, ds, [attr], dst);
    DatapathsStored(src, ds, mid, sb);
    assert Yields(NextRecord(mid).1, [], dst);
  }
}
