/** Phase 1 of a backup on the client (src/client/backup_phase1.c): every
    file-system entry the scanner finds is sent to the server as an
    attributes record, a path record under a command chosen by the
    entry's type, a link record for links, and optionally a second entry
    carrying extra metadata. */
module BackupPhase1 {
  import opened Libc
  import opened Records
  import Sbufl

  /** The FT_* entry types of the scanner. */
  datatype FileType =
    | Regular | Raw | Fifo
    | Directory | Reparse | Junction
    | SoftLink | HardLink | Special
    | NoFsChange | NoFollow | NoStat | NoOpen
    | Unknown(code: int)

  /** The fields of the scanner's FF_PKT that phase 1 uses: the entry type,
      the path, the link target, and the stat data as an opaque payload. */
  datatype FfPkt = FfPkt(ftype: FileType, fname: seq<char>, link: seq<char>, statp: seq<char>)

  /** The settings phase 1 consults. */
  datatype Conf = Conf(protocol1: bool, encryptionPassword: Option<seq<char>>,
                       compression: int, scanProblemRaisesError: bool)

  /** Calls into code that is not part of this model, as functions of
      their inputs: in_exclude_comp (the compression level for a path),
      has_extrameta, attribs_encode (of the stat data and the compression
      level), and the text strerror gives for the errno of the scan. */
  datatype Externals = Externals(
    inExcludeComp: (seq<char>, int) -> int,
    hasExtrameta: (seq<char>, Cmd) -> bool,
    attribsEncode: (seq<char>, int) -> seq<char>,
    strerror: seq<char>)

  /** The module-level filesymbol, metasymbol and dirsymbol. */
  datatype Symbols = Symbols(file: Cmd, meta: Cmd, dir: Cmd)

  const DefaultSymbols: Symbols := Symbols(CMD_FILE, CMD_METADATA, CMD_DIRECTORY)

  /** Encryption, which only protocol 1 supports, is on. */
  predicate Encrypting(conf: Conf) {
    conf.protocol1 && conf.encryptionPassword.Some?
  }

  /** The symbols after backup_phase1_client has looked at the settings:
      the encrypted file and metadata commands when encrypting, otherwise
      whatever they were. */
  function SelectSymbols(conf: Conf, syms: Symbols): Symbols {
    if Encrypting(conf) then syms.(file := CMD_ENC_FILE, meta := CMD_ENC_METADATA) else syms
  }

  /** From the defaults, the file and metadata symbols are the encrypted
      ones exactly when encrypting, the directory symbol never changes,
      and selecting twice is selecting once. */
  lemma SelectSymbolsFacts(conf: Conf, syms: Symbols)
    ensures SelectSymbols(conf, syms).dir == syms.dir
    ensures SelectSymbols(conf, SelectSymbols(conf, syms)) == SelectSymbols(conf, syms)
    ensures var d := SelectSymbols(conf, DefaultSymbols);
            && (d.file == CMD_ENC_FILE <==> Encrypting(conf))
            && (d.meta == CMD_ENC_METADATA <==> Encrypting(conf))
            && (!Encrypting(conf) ==> d == DefaultSymbols)
  {
  }

  /** What send_file does with an entry of a given type. */
  datatype Action =
    | ToServer(cmd: Cmd, compression: int)
    | ScanProblem(msg: seq<char>)
    | UnknownType

  /** The switch of send_file: regular files, raw devices and FIFOs go as
      file data under the file symbol at the path's compression level;
      directories, reparse points and junctions under the directory
      symbol; links and special files under their own commands (these
      last two groups through to_server, which is do_to_server at the
      configured compression level); the four scan problems are reported. */
  function Dispatch(syms: Symbols, conf: Conf, ext: Externals, ff: FfPkt): Action {
    match ff.ftype
    case Regular | Raw | Fifo => ToServer(syms.file, ext.inExcludeComp(ff.fname, conf.compression))
    case Directory | Reparse | Junction => ToServer(syms.dir, conf.compression)
    case SoftLink => ToServer(CMD_SOFT_LINK, conf.compression)
    case HardLink => ToServer(CMD_HARD_LINK, conf.compression)
    case Special => ToServer(CMD_SPECIAL, conf.compression)
    case NoFsChange => ScanProblem("Will not descend: file system change not allowed")
    case NoFollow => ScanProblem("Could not follow link")
    case NoStat => ScanProblem("Could not stat")
    case NoOpen => ScanProblem("Could not open directory")
    case Unknown(_) => UnknownType
  }

  /** The entry types that carry data are sent as file data, under the
      compression level in_exclude_comp chooses; for any reachable symbols
      the command is a link command exactly for the two link types. */
  lemma DispatchCommands(syms: Symbols, conf: Conf, ext: Externals, ff: FfPkt)
    requires syms == SelectSymbols(conf, DefaultSymbols)
    ensures var a := Dispatch(syms, conf, ext, ff);
            && (ff.ftype in {Regular, Raw, Fifo} ==>
                  a.ToServer? && IsFiledataCmd(a.cmd)
                  && a.compression == ext.inExcludeComp(ff.fname, conf.compression))
            && (ff.ftype in {Directory, Reparse, Junction} ==> a == ToServer(CMD_DIRECTORY, conf.compression))
            && (a.ToServer? ==> (IsLinkCmd(a.cmd) <==> ff.ftype in {SoftLink, HardLink}))
            && (a.ToServer? ==> a.cmd != '\0' && a.cmd != CMD_ATTRIBS)
            && (a.ScanProblem? <==> ff.ftype in {NoFsChange, NoFollow, NoStat, NoOpen})
            && (a.UnknownType? <==> ff.ftype.Unknown?)
  {
  }

  /** usual_stuff: the attributes, the path under `cmd`, and the link
      target only for links. */
  function UsualRecords(attr: seq<char>, path: seq<char>, link: seq<char>, cmd: Cmd): seq<IoBuf> {
    [IoBuf(CMD_ATTRIBS, attr), IoBuf(cmd, path)]
    + (if cmd == CMD_HARD_LINK || cmd == CMD_SOFT_LINK then [IoBuf(cmd, link)] else [])
  }

  /** The attribute payload do_to_server encodes for an entry. */
  function EncodedAttr(ext: Externals, ff: FfPkt, compression: int): seq<char> {
    ext.attribsEncode(ff.statp, compression)
  }

  /** Everything do_to_server sends for an entry: the usual records, then
      the same again under the metadata symbol, without a link, when the
      entry has extra metadata. */
  function EntryRecords(syms: Symbols, ext: Externals, ff: FfPkt, cmd: Cmd, compression: int): seq<IoBuf> {
    var attr := EncodedAttr(ext, ff, compression);
    UsualRecords(attr, ff.fname, ff.link, cmd)
    + (if ext.hasExtrameta(ff.fname, cmd) then UsualRecords(attr, ff.fname, [], syms.meta) else [])
  }

  /** The result of ft_err once logw has returned `logwResult`: an error
      when scan problems raise errors or logging fails, 0 otherwise. */
  function FtErrResult(raiseError: bool, logwResult: int): (r: int)
    ensures r == -1 <==> raiseError || logwResult != 0
    ensures r == 0 || r == -1
  {
    if logwResult != 0 then -1
    else if raiseError then -1
    else 0
  }

  /** The warning ft_err logs: "Err: " first when scan problems raise
      errors, then the problem, the path and the system's error text. */
  function FtErrText(raiseError: bool, msg: seq<char>, fname: seq<char>, err: seq<char>): seq<char> {
    (if raiseError then "Err: " else "") + msg + " " + fname + ": " + err
  }

  /** The warning send_file logs for an entry type it does not know. */
  function UnknownTypeText(code: int, fname: seq<char>): seq<char> {
    "Err: Unknown file type " + Decimal(code) + ": " + fname
  }

  /** Everything send_file sends for an entry: the entry's records when it
      goes to the server, otherwise one warning. */
  function SendFileRecords(syms: Symbols, conf: Conf, ext: Externals, ff: FfPkt): (r: seq<IoBuf>)
    ensures Dispatch(syms, conf, ext, ff).ToServer? ==> |r| >= 2 && r[0].cmd == CMD_ATTRIBS
    ensures !Dispatch(syms, conf, ext, ff).ToServer? <==> |r| == 1 && r[0].cmd == CMD_WARNING
  {
    match Dispatch(syms, conf, ext, ff)
    case ToServer(cmd, compression) => EntryRecords(syms, ext, ff, cmd, compression)
    case ScanProblem(msg) =>
      [IoBuf(CMD_WARNING, FtErrText(conf.scanProblemRaisesError, msg, ff.fname, ext.strerror))]
    case UnknownType => [IoBuf(CMD_WARNING, UnknownTypeText(ff.ftype.code, ff.fname))]
  }

  // ---------------------------------------------------------------------
  // The entry as the server reads it

  /** The entry the server assembles from the usual records. */
  function EntryOf(attr: seq<char>, path: seq<char>, link: seq<char>, cmd: Cmd): Sbufl.Sbuf {
    Sbufl.Sbuf(Some(IoBuf(CMD_ATTRIBS, attr)), Some(IoBuf(cmd, path)),
               if IsLinkCmd(cmd) then Some(IoBuf(cmd, link)) else None, None, None)
  }

  /** Payloads one record can frame. */
  predicate Frameable(attr: seq<char>, path: seq<char>, link: seq<char>, cmd: Cmd) {
    cmd != '\0' && |attr| <= 0xFFFF && |path| <= 0xFFFF && (IsLinkCmd(cmd) ==> |link| <= 0xFFFF)
  }

  /** The records usual_stuff sends are read back by the server's
      sbufl_fill from the network (phase 1 or not) as one entry with that
      attribute payload, path, command and link, whatever follows them. */
  lemma UsualReadBack(attr: seq<char>, path: seq<char>, link: seq<char>, cmd: Cmd,
                      phase1: bool, prefix: seq<IoBuf>, more: seq<IoBuf>)
    requires Frameable(attr, path, link, cmd)
    ensures var recs := UsualRecords(attr, path, link, cmd);
            var all := prefix + recs + more;
            var r := Sbufl.FillSpec(Sbufl.NetSrc(all, |prefix|), Sbufl.EmptySbuf, phase1);
            r.0 == Ok && r.1 == EntryOf(attr, path, link, cmd)
            && r.2 == Sbufl.NetSrc(all, |prefix| + |recs|)
  {
    var recs := UsualRecords(attr, path, link, cmd);
    var all := prefix + recs + more;
    var sb := EntryOf(attr, path, link, cmd);
    assert Sbufl.WellFormed(sb, false);
    assert Sbufl.ManifestRecords(sb, false) == recs;
    assert all[|prefix|..|prefix| + |recs|] == recs;
    Sbufl.RecordsYield(all, |prefix|, recs);
    Sbufl.FillYields(Sbufl.NetSrc(all, |prefix|), sb, phase1, Sbufl.NetSrc(all, |prefix| + |recs|));
  }

  /** Everything do_to_server sends for an entry is read back by the
      server as the entry, followed (when there is extra metadata) by the
      metadata entry for the same path. */
  lemma EntryReadBack(syms: Symbols, conf: Conf, ext: Externals, ff: FfPkt, cmd: Cmd, compression: int,
                      phase1: bool, more: seq<IoBuf>)
    requires !IsLinkCmd(syms.meta)
    requires Frameable(EncodedAttr(ext, ff, compression), ff.fname, ff.link, cmd)
    requires syms.meta != '\0'
    ensures var attr := EncodedAttr(ext, ff, compression);
            var recs := EntryRecords(syms, ext, ff, cmd, compression);
            var first := Sbufl.FillSpec(Sbufl.NetSrc(recs + more, 0), Sbufl.EmptySbuf, phase1);
            && first.0 == Ok && first.1 == EntryOf(attr, ff.fname, ff.link, cmd)
            && (ext.hasExtrameta(ff.fname, cmd) ==>
                  var second := Sbufl.FillSpec(first.2, Sbufl.EmptySbuf, phase1);
                  second.0 == Ok && second.1 == EntryOf(attr, ff.fname, [], syms.meta)
                  && second.2 == Sbufl.NetSrc(recs + more, |recs|))
            && (!ext.hasExtrameta(ff.fname, cmd) ==> first.2 == Sbufl.NetSrc(recs + more, |recs|))
  {
    var attr := EncodedAttr(ext, ff, compression);
    var main := UsualRecords(attr, ff.fname, ff.link, cmd);
    var recs := EntryRecords(syms, ext, ff, cmd, compression);
    if ext.hasExtrameta(ff.fname, cmd) {
      var meta := UsualRecords(attr, ff.fname, [], syms.meta);
      assert recs + more == [] + main + (meta + more);
      UsualReadBack(attr, ff.fname, ff.link, cmd, phase1, [], meta + more);
      assert recs + more == main + meta + more;
      UsualReadBack(attr, ff.fname, [], syms.meta, phase1, main, more);
    } else {
      assert recs + more == [] + main + more;
      UsualReadBack(attr, ff.fname, ff.link, cmd, phase1, [], more);
    }
  }

  /** The server reading the network skips the warning send_file sends for
      an entry it does not back up: whatever came before and comes after,
      the next entry it reads is the one after the warning. */
  lemma ProblemSkipped(syms: Symbols, conf: Conf, ext: Externals, ff: FfPkt,
                       prefix: seq<IoBuf>, more: seq<IoBuf>, sb: Sbufl.Sbuf, phase1: bool)
    requires !Dispatch(syms, conf, ext, ff).ToServer?
    ensures var all := prefix + SendFileRecords(syms, conf, ext, ff) + more;
            Sbufl.FillSpec(Sbufl.NetSrc(all, |prefix|), sb, phase1)
              == Sbufl.FillSpec(Sbufl.NetSrc(all, |prefix| + 1), sb, phase1)
  {
    var all := prefix + SendFileRecords(syms, conf, ext, ff) + more;
    assert all[|prefix|] == SendFileRecords(syms, conf, ext, ff)[0];
    Sbufl.NetWarningSkipped(all, |prefix|, sb, phase1);
  }

  // ---------------------------------------------------------------------
  // The client

  /** logw with a channel: the warning goes out as one CMD_WARNING record,
      and the result is that of the write. */
  method Logw(asfd: Asfd, text: seq<char>) returns (ret: int)
    modifies asfd`sent, asfd`room
    ensures SentAll(asfd, old(asfd.sent), old(asfd.room), [IoBuf(CMD_WARNING, text)])
    ensures ret == 0 <==> old(asfd.room) > 0
    ensures ret == 0 || ret == -1
  {
    var ok := asfd.Write(IoBuf(CMD_WARNING, text));
    ret := if ok then 0 else -1;
  }

  /** ft_err: the problem is logged as a warning; the result is -1 when
      that fails or when scan problems raise errors. */
  method FtErr(asfd: Asfd, raiseError: bool, msg: seq<char>, fname: seq<char>, err: seq<char>)
    returns (ret: int)
    modifies asfd`sent, asfd`room
    ensures SentAll(asfd, old(asfd.sent), old(asfd.room), [IoBuf(CMD_WARNING, FtErrText(raiseError, msg, fname, err))])
    ensures ret == FtErrResult(raiseError, if old(asfd.room) > 0 then 0 else -1)
  {
    var r := Logw(asfd, FtErrText(raiseError, msg, fname, err));
    if r != 0 { return -1; }
    if raiseError { return -1; }
    return 0;
  }

  /** The module-level state of backup_phase1.c: the three symbols and the
      static sbuf send_file reuses for every entry (its compression level,
      stat data and encoded attributes). */
  class Phase1Client {
    var filesymbol: Cmd
    var metasymbol: Cmd
    var dirsymbol: Cmd
    var sbCompression: int
    var sbStatp: seq<char>
    var sbAttr: seq<char>

    function Syms(): (s: Symbols)
      reads this
      ensures s.file == filesymbol && s.meta == metasymbol && s.dir == dirsymbol
    {
      Symbols(filesymbol, metasymbol, dirsymbol)
    }

    constructor ()
      ensures Syms() == DefaultSymbols
      ensures sbCompression == 0 && sbStatp == [] && sbAttr == []
    {
      filesymbol, metasymbol, dirsymbol := CMD_FILE, CMD_METADATA, CMD_DIRECTORY;
      sbCompression, sbStatp, sbAttr := 0, [], [];
    }

    /** The symbol selection of backup_phase1_client. The scan that follows
        is not part of this model; `scanOk` says whether it succeeded. */
    method BackupPhase1Client(conf: Conf, scanOk: bool) returns (ret: int)
      modifies this`filesymbol, this`metasymbol
      ensures Syms() == SelectSymbols(conf, old(Syms()))
      ensures ret == (if scanOk then 0 else -1)
    {
      if conf.protocol1 && conf.encryptionPassword.Some? {
        filesymbol := CMD_ENC_FILE;
        metasymbol := CMD_ENC_METADATA;
      }
      ret := if scanOk then 0 else -1;
    }

    /** usual_stuff: the writes stop at the first failure, which makes the
        result -1. */
    method UsualStuff(asfd: Asfd, path: seq<char>, link: seq<char>, cmd: Cmd) returns (ret: int)
      modifies asfd`sent, asfd`room
      ensures SentAll(asfd, old(asfd.sent), old(asfd.room), UsualRecords(sbAttr, path, link, cmd))
      ensures ret == 0 <==> |UsualRecords(sbAttr, path, link, cmd)| <= old(asfd.room)
      ensures ret == 0 || ret == -1
    {
      ghost var recs := UsualRecords(sbAttr, path, link, cmd);
      ghost var o, r := asfd.sent, asfd.room;
      SendingStart(asfd, recs);
      var ok := Send(asfd, IoBuf(CMD_ATTRIBS, sbAttr), o, r, recs, 0);
      if !ok { return -1; }
      ok := Send(asfd, IoBuf(cmd, path), o, r, recs, 1);
      if !ok { return -1; }
      if cmd == CMD_HARD_LINK || cmd == CMD_SOFT_LINK {
        ok := Send(asfd, IoBuf(cmd, link), o, r, recs, 2);
        if !ok { return -1; }
        SendingDone(asfd, o, r, recs);
      } else {
        SendingDone(asfd, o, r, recs);
      }
      return 0;
    }

    /** maybe_send_extrameta: nothing without extra metadata, otherwise the
        usual records under `symbol` and without a link. */
    method MaybeSendExtrameta(asfd: Asfd, path: seq<char>, cmd: Cmd, symbol: Cmd, ext: Externals)
      returns (ret: int)
      modifies asfd`sent, asfd`room
      ensures var recs := if ext.hasExtrameta(path, cmd) then UsualRecords(sbAttr, path, [], symbol) else [];
              && SentAll(asfd, old(asfd.sent), old(asfd.room), recs)
              && (ret == 0 <==> |recs| <= old(asfd.room))
      ensures ret == 0 || ret == -1
    {
      if !ext.hasExtrameta(path, cmd) {
        assert old(asfd.sent) + Take([], old(asfd.room)) == old(asfd.sent);
        return 0;
      }
      ret := UsualStuff(asfd, path, [], symbol);
    }

    /** do_to_server: the compression level and stat data go into the
        sbuf, its attributes are encoded, the entry is sent, and then its
        extra metadata when there is some. */
    method DoToServer(asfd: Asfd, ff: FfPkt, cmd: Cmd, compression: int, ext: Externals)
      returns (ret: int)
      modifies this`sbCompression, this`sbStatp, this`sbAttr, asfd`sent, asfd`room
      ensures sbCompression == compression && sbStatp == ff.statp
      ensures sbAttr == EncodedAttr(ext, ff, compression)
      ensures SentAll(asfd, old(asfd.sent), old(asfd.room), EntryRecords(Syms(), ext, ff, cmd, compression))
      ensures ret == 0 <==> |EntryRecords(Syms(), ext, ff, cmd, compression)| <= old(asfd.room)
      ensures ret == 0 || ret == -1
    {
      sbCompression := compression;
      sbStatp := ff.statp;
      sbAttr := ext.attribsEncode(sbStatp, sbCompression);
      ghost var o, r := asfd.sent, asfd.room;
      ghost var main := UsualRecords(sbAttr, ff.fname, ff.link, cmd);
      ghost var meta := if ext.hasExtrameta(ff.fname, cmd) then UsualRecords(sbAttr, ff.fname, [], metasymbol) else [];
      assert EntryRecords(Syms(), ext, ff, cmd, compression) == main + meta;
      ret := UsualStuff(asfd, ff.fname, ff.link, cmd);
      if ret != 0 {
        SentAllPrefix(asfd, o, r, main, meta);
        return -1;
      }
      assert Take(main, r) == main;
      ret := MaybeSendExtrameta(asfd, ff.fname, cmd, metasymbol, ext);
      SentAllAppend(asfd, o, r, main, meta);
    }

    /** send_file for one scanned entry: the action its switch selects,
        carried out. Allocating the static sbuf, which happens once, is
        assumed to succeed. */
    method SendFile(asfd: Asfd, ff: FfPkt, conf: Conf, ext: Externals) returns (ret: int)
      modifies this`sbCompression, this`sbStatp, this`sbAttr, asfd`sent, asfd`room
      ensures var a := Dispatch(Syms(), conf, ext, ff);
              && (a.ToServer? ==>
                    && SentAll(asfd, old(asfd.sent), old(asfd.room), EntryRecords(Syms(), ext, ff, a.cmd, a.compression))
                    && (ret == 0 <==> |EntryRecords(Syms(), ext, ff, a.cmd, a.compression)| <= old(asfd.room))
                    && sbAttr == EncodedAttr(ext, ff, a.compression))
              && SentAll(asfd, old(asfd.sent), old(asfd.room), SendFileRecords(Syms(), conf, ext, ff))
              && (a.ScanProblem? ==>
                    ret == FtErrResult(conf.scanProblemRaisesError, if old(asfd.room) > 0 then 0 else -1))
              && (a.UnknownType? ==> (ret == 0 <==> old(asfd.room) > 0) && (ret == 0 || ret == -1))
              && (!a.ToServer? ==>
                    sbAttr == old(sbAttr) && sbCompression == old(sbCompression) && sbStatp == old(sbStatp))
    {
      match Dispatch(Syms(), conf, ext, ff) {
        case ToServer(cmd, compression) =>
          ret := DoToServer(asfd, ff, cmd, compression, ext);
        case ScanProblem(msg) =>
          ret := FtErr(asfd, conf.scanProblemRaisesError, msg, ff.fname, ext.strerror);
        case UnknownType =>
          ret := Logw(asfd, UnknownTypeText(ff.ftype.code, ff.fname));
      }
    }
  }
}
