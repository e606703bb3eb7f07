/** The server side of a diff request (src/server/diff.c): the backup the
    client names is looked up by timestamp or number, its name is sent,
    and then the attributes, path and (for links) link record of every
    entry of its manifest are forwarded. Without a name, the list of
    backups is sent instead. */
module Diff {
  import opened Libc
  import opened Records
  import Sbufl

  // =====================================================================
  // Backups and manifests

  /** The parts of a `struct bu` the diff uses: the backup number, its
      timestamp, and the directory that holds it. */
  datatype Bu = Bu(bno: nat, timestamp: seq<char>, path: seq<char>)

  /** The server's manifests, by path, as the bytes the protocol-1 reader
      sees once decompressed. */
  type Store = map<seq<char>, seq<char>>

  /** The file name of a backup's manifest: compressed for protocol 1. */
  function ManifestName(protocol1: bool): (r: seq<char>)
    ensures protocol1 ==> r == "manifest.gz"
    ensures !protocol1 ==> r == "manifest"
  {
    if protocol1 then "manifest.gz" else "manifest"
  }

  /** prepend_s(fullpath, name): the manifest's path inside the backup. */
  function ManifestPath(fullpath: seq<char>, protocol1: bool): seq<char> {
    fullpath + "/" + ManifestName(protocol1)
  }

  /** The manifest is a file directly inside the backup's directory, and
      the two protocols never read each other's manifest. */
  lemma ManifestPathInBackup(fullpath: seq<char>, protocol1: bool)
    ensures var m := ManifestPath(fullpath, protocol1);
            && |m| > |fullpath| + 1 && m[..|fullpath|] == fullpath && m[|fullpath|] == '/'
            && '/' !in m[|fullpath| + 1..]
    ensures ManifestPath(fullpath, true) != ManifestPath(fullpath, false)
  {
    var m := ManifestPath(fullpath, protocol1);
    assert m[|fullpath| + 1..] == ManifestName(protocol1);
    assert |ManifestPath(fullpath, true)| != |ManifestPath(fullpath, false)|;
  }

  // =====================================================================
  // diff_manifest

  function Opt(o: Option<IoBuf>): seq<IoBuf> {
    if o.Some? then [o.value] else []
  }

  /** The records forwarded for one manifest entry: its attributes, its
      path, and its link only when it is a link. */
  function Forwarded(sb: Sbufl.Sbuf): seq<IoBuf> {
    Opt(sb.attr) + Opt(sb.path) + (if Sbufl.IsLinkEntry(sb) then Opt(sb.link) else [])
  }

  function ForwardedAll(sbs: seq<Sbufl.Sbuf>): seq<IoBuf> {
    FlatMap(Forwarded, sbs)
  }

  /** What log_and_send_oom sends from diff_manifest. */
  function OomRecord(func: seq<char>): IoBuf {
    IoBuf(CMD_ERROR, "out of memory in " + func + "()\n")
  }

  /** What diff_manifest sends for a backup when no write fails, and
      whether it then succeeds: the forwarded records of every entry the
      manifest yields, and success exactly when the manifest ends cleanly.
      A manifest that cannot be opened is reported to the client as an
      error record, and fails. */
  function ManifestDiff(store: Store, fullpath: seq<char>, protocol1: bool): (seq<IoBuf>, bool) {
    var m := ManifestPath(fullpath, protocol1);
    if m !in store then ([OomRecord("diff_manifest")], false)
    else
      var all := Sbufl.ReadAll(Sbufl.FileSrc(store[m], false, 0), false);
      (ForwardedAll(all.0), all.1 == End)
  }

  /** An entry as sbufl_fill leaves it when it reports success. */
  predicate Filled(sb: Sbufl.Sbuf) {
    sb.attr.Some? && sb.path.Some? && (Sbufl.IsLinkEntry(sb) ==> sb.link.Some?)
  }

  /** For a filled entry, exactly attributes, path and, for a link, the
      link go out, in that order; the data path and end-of-file records
      never do. */
  lemma ForwardedShape(sb: Sbufl.Sbuf)
    requires Filled(sb)
    ensures var f := Forwarded(sb);
            && |f| == (if Sbufl.IsLinkEntry(sb) then 3 else 2)
            && f[0] == sb.attr.value && f[1] == sb.path.value
            && (Sbufl.IsLinkEntry(sb) ==> f[2] == sb.link.value)
  {
    assert Opt(sb.attr) == [sb.attr.value];
    assert Opt(sb.path) == [sb.path.value];
  }

  /** The forwarded records after one more entry. */
  lemma ForwardedAllSnoc(ents: seq<Sbufl.Sbuf>, sb: Sbufl.Sbuf)
    ensures ForwardedAll(ents + [sb]) == ForwardedAll(ents) + Forwarded(sb)
  {
    FlatMapAppend(Forwarded, ents, [sb]);
    assert [sb][1..] == [];
    assert FlatMap(Forwarded, [sb]) == Forwarded(sb) + [];
  }

  /** The records of one entry go out in order until a write fails. */
  method ForwardEntry(asfd: Asfd, sb: Sbufl.Sbuf) returns (ok: bool)
    requires Filled(sb)
    modifies asfd`sent, asfd`room
    ensures SentAll(asfd, old(asfd.sent), old(asfd.room), Forwarded(sb))
    ensures ok <==> |Forwarded(sb)| <= old(asfd.room)
  {
    ghost var recs := Forwarded(sb);
    ghost var o, r := asfd.sent, asfd.room;
    ForwardedShape(sb);
    SendingStart(asfd, recs);
    ok := Send(asfd, sb.attr.value, o, r, recs, 0);
    if !ok { return; }
    ok := Send(asfd, sb.path.value, o, r, recs, 1);
    if !ok { return; }
    if Sbufl.IsLinkEntry(sb) {
      ok := Send(asfd, sb.link.value, o, r, recs, 2);
      if !ok { return; }
    }
    SendingDone(asfd, o, r, recs);
  }

  /** A channel that took every record so far. */
  lemma SentAllFits(a: Asfd, o: seq<IoBuf>, r: nat, recs: seq<IoBuf>)
    requires |recs| <= r && a.sent == o + recs && a.room == r - |recs|
    ensures SentAll(a, o, r, recs)
  {
    assert Take(recs, r) == recs;
  }

  /** The manifest read so far: `ents` came before `src`, and reading on
      from `src` completes `all`. */
  ghost predicate ReadSoFar(all: (seq<Sbufl.Sbuf>, Status), ents: seq<Sbufl.Sbuf>, src: Sbufl.Src) {
    && src.Valid()
    && all.0 == ents + Sbufl.ReadAll(src, false).0
    && all.1 == Sbufl.ReadAll(src, false).1
  }

  lemma ReadSoFarStop(all: (seq<Sbufl.Sbuf>, Status), ents: seq<Sbufl.Sbuf>, src: Sbufl.Src)
    requires ReadSoFar(all, ents, src) && Sbufl.FillSpec(src, Sbufl.EmptySbuf, false).0 != Ok
    ensures all.0 == ents && all.1 == Sbufl.FillSpec(src, Sbufl.EmptySbuf, false).0
  {
    assert Sbufl.ReadAll(src, false).0 == [];
  }

  lemma ReadSoFarStep(all: (seq<Sbufl.Sbuf>, Status), ents: seq<Sbufl.Sbuf>, src: Sbufl.Src)
    requires ReadSoFar(all, ents, src) && Sbufl.FillSpec(src, Sbufl.EmptySbuf, false).0 == Ok
    ensures var f := Sbufl.FillSpec(src, Sbufl.EmptySbuf, false);
            && ReadSoFar(all, ents + [f.1], f.2)
            && all.0 == ents + [f.1] + Sbufl.ReadAll(f.2, false).0
  {
    Sbufl.ReadAllStep(src, false);
  }

  /** Every entry read so far went out in full. */
  ghost predicate Forwarding(asfd: Asfd, o: seq<IoBuf>, r: nat, ents: seq<Sbufl.Sbuf>)
    reads asfd
  {
    |ForwardedAll(ents)| <= r && asfd.sent == o + ForwardedAll(ents) && asfd.room == r - |ForwardedAll(ents)|
  }

  lemma ForwardingNext(asfd: Asfd, o: seq<IoBuf>, r: nat, ents: seq<Sbufl.Sbuf>, sb: Sbufl.Sbuf)
    requires |ForwardedAll(ents)| <= r
    requires SentAll(asfd, o + ForwardedAll(ents), r - |ForwardedAll(ents)|, Forwarded(sb))
    requires |Forwarded(sb)| <= r - |ForwardedAll(ents)|
    ensures Forwarding(asfd, o, r, ents + [sb])
  {
    var done, f := ForwardedAll(ents), Forwarded(sb);
    ForwardedAllSnoc(ents, sb);
    assert Take(f, r - |done|) == f;
    assert asfd.sent == (o + done) + f == o + (done + f);
    assert asfd.room == r - |done| - |f| == r - |done + f|;
  }

  lemma ForwardingFailed(asfd: Asfd, o: seq<IoBuf>, r: nat, ents: seq<Sbufl.Sbuf>, sb: Sbufl.Sbuf, rest: seq<Sbufl.Sbuf>)
    requires |ForwardedAll(ents)| <= r
    requires SentAll(asfd, o + ForwardedAll(ents), r - |ForwardedAll(ents)|, Forwarded(sb))
    requires |Forwarded(sb)| > r - |ForwardedAll(ents)|
    ensures SentAll(asfd, o, r, ForwardedAll(ents + [sb] + rest))
    ensures |ForwardedAll(ents + [sb] + rest)| > r
  {
    var done := ForwardedAll(ents);
    ForwardedAllSnoc(ents, sb);
    FlatMapAppend(Forwarded, ents + [sb], rest);
    SentAllPrefix(asfd, o + done, r - |done|, Forwarded(sb), ForwardedAll(rest));
    SentAllAppend(asfd, o, r, done, Forwarded(sb) + ForwardedAll(rest));
  }

  /** diff_manifest: entries are read from the backup's manifest one at a
      time into a freed sbuf and forwarded; the end of the manifest is
      success, a read error or a failed write is -1. */
  method DiffManifest(asfd: Asfd, store: Store, fullpath: seq<char>, protocol1: bool) returns (ret: int)
    modifies asfd`sent, asfd`room
    ensures var d := ManifestDiff(store, fullpath, protocol1);
            && SentAll(asfd, old(asfd.sent), old(asfd.room), d.0)
            && (ret == 0 <==> d.1 && |d.0| <= old(asfd.room))
    ensures ret == 0 || ret == -1
  {
    var m := ManifestPath(fullpath, protocol1);
    if m !in store {
      var _ := asfd.Write(OomRecord("diff_manifest"));
      return -1;
    }
    var rd := new Sbufl.Reader(store[m], false);
    ghost var all := Sbufl.ReadAll(rd.Src(), false);
    ghost var o, r := asfd.sent, asfd.room;
    ghost var ents: seq<Sbufl.Sbuf> := [];
    while true
      invariant rd.Valid() && ReadSoFar(all, ents, rd.Src())
      invariant Forwarding(asfd, o, r, ents)
      decreases rd.Src().Remaining()
    {
      ghost var before := rd.Src();
      var st, sb := Sbufl.FillFromFile(rd, Sbufl.EmptySbuf, false);
      ghost var f := Sbufl.FillSpec(before, Sbufl.EmptySbuf, false);
      assert f.0 == st && f.1 == sb && f.2 == rd.Src();
      if st != Ok {
        ReadSoFarStop(all, ents, before);
        SentAllFits(asfd, o, r, ForwardedAll(ents));
        return if st == End then 0 else -1;
      }
      ReadSoFarStep(all, ents, before);
      var ok := ForwardEntry(asfd, sb);
      if !ok {
        ForwardingFailed(asfd, o, r, ents, sb, Sbufl.ReadAll(f.2, false).0);
        return -1;
      }
      ForwardingNext(asfd, o, r, ents, sb);
      ents := ents + [sb];
    }
  }

  /** What diff_manifest forwards from a manifest burp wrote: the records
      of each entry in turn, and the read ends in success. */
  lemma DiffForwardsManifest(store: Store, fullpath: seq<char>, protocol1: bool, sbs: seq<Sbufl.Sbuf>)
    requires forall i :: 0 <= i < |sbs| ==> Sbufl.WellFormed(sbs[i], true)
    requires ManifestPath(fullpath, protocol1) in store
    requires store[ManifestPath(fullpath, protocol1)] == Sbufl.ManifestOf(sbs, true)
    ensures ManifestDiff(store, fullpath, protocol1) == (ForwardedAll(sbs), true)
  {
    var data := store[ManifestPath(fullpath, protocol1)];
    assert data[0..] == data;
    Sbufl.ManifestReadAll(sbs, false, data, false, 0);
  }

  // =====================================================================
  // send_backup_name_to_client and do_diff_server

  /** send_backup_name_to_client: the record naming a backup. Its 64-byte
      message buffer holds at most 63 characters of the timestamp. */
  function NameRecord(bu: Bu): IoBuf {
    IoBuf(CMD_TIMESTAMP, Truncate(CStr(bu.timestamp), 63))
  }

  /** The name sent is the timestamp, cut to 63 characters. */
  lemma NameIsTimestamp(bu: Bu)
    ensures NameRecord(bu).cmd == CMD_TIMESTAMP
    ensures NameRecord(bu).buf <= CStr(bu.timestamp)
    ensures |NameRecord(bu).buf| == if |CStr(bu.timestamp)| <= 63 then |CStr(bu.timestamp)| else 63
    ensures '\0' !in NameRecord(bu).buf
  {
  }

  method SendBackupNameToClient(asfd: Asfd, bu: Bu) returns (ret: int)
    modifies asfd`sent, asfd`room
    ensures SentAll(asfd, old(asfd.sent), old(asfd.room), [NameRecord(bu)])
    ensures ret == 0 <==> old(asfd.room) > 0
    ensures ret == 0 || ret == -1
  {
    var msg := Truncate(CStr(bu.timestamp), 63);
    var ok := asfd.Write(IoBuf(CMD_TIMESTAMP, msg));
    ret := if ok then 0 else -1;
  }

  /** What the first match gets: its name, then its manifest's records;
      the diff is not attempted once the name cannot be sent. */
  method NameAndDiff(asfd: Asfd, store: Store, bu: Bu, protocol1: bool) returns (ret: int)
    modifies asfd`sent, asfd`room
    ensures var d := ManifestDiff(store, bu.path, protocol1);
            && SentAll(asfd, old(asfd.sent), old(asfd.room), [NameRecord(bu)] + d.0)
            && (ret == 0 <==> d.1 && 1 + |d.0| <= old(asfd.room))
    ensures ret == 0 || ret == -1
  {
    ghost var o, r := asfd.sent, asfd.room;
    ghost var d := ManifestDiff(store, bu.path, protocol1);
    ret := SendBackupNameToClient(asfd, bu);
    if ret != 0 {
      SentAllPrefix(asfd, o, r, [NameRecord(bu)], d.0);
      return -1;
    }
    SentAllFits(asfd, o, r, [NameRecord(bu)]);
    ret := DiffManifest(asfd, store, bu.path, protocol1);
    SentAllAppend(asfd, o, r, [NameRecord(bu)], d.0);
  }

  function Names(bus: seq<Bu>): (r: seq<IoBuf>)
    ensures |r| == |bus|
  {
    seq(|bus|, i requires 0 <= i < |bus| => NameRecord(bus[i]))
  }

  /** `backup && *backup`: a non-empty backup argument was given. */
  predicate HasArg(backup: Option<seq<char>>) {
    backup.Some? && CStr(backup.value) != []
  }

  /** A backup is the one asked for when its timestamp equals the argument
      or its number equals the argument's decimal value. */
  predicate Matches(bu: Bu, arg: seq<char>, bno: int) {
    StrcmpZero(bu.timestamp, arg) || bu.bno == bno
  }

  /** The position of the first backup asked for, if any. */
  function FirstMatch(bus: seq<Bu>, arg: seq<char>, bno: int): (r: Option<nat>)
    ensures r.Some? ==> r.value < |bus| && Matches(bus[r.value], arg, bno)
    ensures r.Some? ==> forall j :: 0 <= j < r.value ==> !Matches(bus[j], arg, bno)
    ensures r.None? ==> forall j :: 0 <= j < |bus| ==> !Matches(bus[j], arg, bno)
  {
    if bus == [] then None
    else if Matches(bus[0], arg, bno) then Some(0)
    else
      match FirstMatch(bus[1..], arg, bno)
      case None => None
      case Some(k) => Some(k + 1)
  }

  /** Backups after the first match are ignored, whatever they are. */
  lemma LaterMatchesIgnored(bus: seq<Bu>, more: seq<Bu>, arg: seq<char>, bno: int)
    requires FirstMatch(bus, arg, bno).Some?
    ensures FirstMatch(bus + more, arg, bno) == FirstMatch(bus, arg, bno)
  {
    var k := FirstMatch(bus, arg, bno).value;
    assert (bus + more)[k] == bus[k];
    assert forall j :: 0 <= j < k ==> (bus + more)[j] == bus[j];
  }

  /** What do_diff_server sends when no write fails, and whether it then
      succeeds. Without an argument: the name of every backup, in list
      order, and success. With one: the first backup asked for is named
      and its manifest forwarded; when there is none, the error "backup
      not found", and failure. */
  function DiffPlan(store: Store, bus: seq<Bu>, protocol1: bool, backup: Option<seq<char>>): (seq<IoBuf>, bool) {
    if !HasArg(backup) then (Names(bus), true)
    else
      match FirstMatch(bus, backup.value, Strtoul10(backup.value))
      case None => ([IoBuf(CMD_ERROR, "backup not found")], false)
      case Some(i) =>
        var d := ManifestDiff(store, bus[i].path, protocol1);
        ([NameRecord(bus[i])] + d.0, d.1)
  }

  /** The loop of do_diff_server without an argument: every backup is
      named, in list order, until a write fails. */
  method ListBackups(asfd: Asfd, list: seq<Bu>) returns (ret: int)
    modifies asfd`sent, asfd`room
    ensures SentAll(asfd, old(asfd.sent), old(asfd.room), Names(list))
    ensures ret == 0 <==> |list| <= old(asfd.room)
    ensures ret == 0 || ret == -1
  {
    ghost var o, r := asfd.sent, asfd.room;
    SendingStart(asfd, Names(list));
    var i := 0;
    while i < |list|
      invariant 0 <= i <= |list|
      invariant Sending(asfd, o, r, Names(list), i)
    {
      var ok := Send(asfd, NameRecord(list[i]), o, r, Names(list), i);
      if !ok {
        return -1;
      }
      i := i + 1;
    }
    SendingDone(asfd, o, r, Names(list));
    return 0;
  }

  /** The loop of do_diff_server with an argument: the first backup asked
      for is named and diffed, and the `found` flag makes the loop pass
      over every later one. A failure ends the loop with -1. */
  method SearchBackups(asfd: Asfd, store: Store, list: seq<Bu>, protocol1: bool, arg: seq<char>, bno: int)
    returns (ret: int, found: bool)
    modifies asfd`sent, asfd`room
    ensures found <==> FirstMatch(list, arg, bno).Some?
    ensures !found ==> ret == 0 && asfd.sent == old(asfd.sent) && asfd.room == old(asfd.room)
    ensures found ==>
              var d := ManifestDiff(store, list[FirstMatch(list, arg, bno).value].path, protocol1);
              var recs := [NameRecord(list[FirstMatch(list, arg, bno).value])] + d.0;
              && SentAll(asfd, old(asfd.sent), old(asfd.room), recs)
              && (ret == 0 <==> d.1 && |recs| <= old(asfd.room))
    ensures ret == 0 || ret == -1
  {
    ret := 0;
    found := false;
    var i := 0;
    while i < |list|
      invariant 0 <= i <= |list|
      invariant !found ==> ret == 0 && asfd.sent == old(asfd.sent) && asfd.room == old(asfd.room)
      invariant !found ==> forall j :: 0 <= j < i ==> !Matches(list[j], arg, bno)
      invariant found ==> FirstMatch(list, arg, bno).Some? && FirstMatch(list, arg, bno).value < i
      invariant found ==>
                  var d := ManifestDiff(store, list[FirstMatch(list, arg, bno).value].path, protocol1);
                  var recs := [NameRecord(list[FirstMatch(list, arg, bno).value])] + d.0;
                  && ret == 0 && SentAll(asfd, old(asfd.sent), old(asfd.room), recs)
                  && d.1 && |recs| <= old(asfd.room)
    {
      if !found && Matches(list[i], arg, bno) {
        found := true;
        assert FirstMatch(list, arg, bno) == Some(i);
        ret := NameAndDiff(asfd, store, list[i], protocol1);
        if ret != 0 {
          return;
        }
      }
      i := i + 1;
    }
  }

  /** do_diff_server. `bus` is what bu_get_list gives: None when listing
      the backups fails. */
  method DoDiffServer(asfd: Asfd, store: Store, bus: Option<seq<Bu>>, protocol1: bool, backup: Option<seq<char>>)
    returns (ret: int)
    modifies asfd`sent, asfd`room
    ensures bus.None? ==> ret == -1 && asfd.sent == old(asfd.sent) && asfd.room == old(asfd.room)
    ensures bus.Some? ==>
              var p := DiffPlan(store, bus.value, protocol1, backup);
              && SentAll(asfd, old(asfd.sent), old(asfd.room), p.0)
              && (ret == 0 <==> p.1 && |p.0| <= old(asfd.room))
    ensures ret == 0 || ret == -1
  {
    if bus.None? {
      return -1;
    }
    if !HasArg(backup) {
      ret := ListBackups(asfd, bus.value);
      return;
    }
    var bno := Strtoul10(backup.value);
    var found: bool;
    ret, found := SearchBackups(asfd, store, bus.value, protocol1, backup.value, bno);
    if !found {
      var ok := asfd.Write(IoBuf(CMD_ERROR, "backup not found"));
      return -1;
    }
  }
}
