/** The protocol-1 storage path cursor (src/server/protocol1/dpth.c): a
    triple of 16-bit counters naming the data file PPPP/SSSS/TTTT[.gz],
    recovered at start-up from the highest names already on disk and
    moved forward by the data paths found in manifests. */
module Dpth {
  import opened Libc
  import opened Records

  /** The value range of a `uint16_t`. */
  type U16 = x: int | 0 <= x < 0x10000

  /** The prim/seco/tert fields of `struct dpth`. */
  datatype Triple = Triple(prim: U16, seco: U16, tert: U16)

  /** `c` is at least `t` in every component (not the lexicographic
      order). */
  predicate Covers(c: Triple, t: Triple) {
    c.prim >= t.prim && c.seco >= t.seco && c.tert >= t.tert
  }

  // ---------------------------------------------------------------------
  // Rendering

  /** The data files of compressed entries carry ".gz", except EFS files,
      which cannot be compressed. */
  predicate Gzipped(compression: int, cmd: Cmd) {
    compression != 0 && cmd != CMD_EFS_FILE
  }

  /** dpth_protocol1_mk: "%04X/%04X/%04X" followed by ".gz" for a
      compressed data file. The result is at most 17 characters, so the
      32-byte buffer never truncates it. */
  function Mk(t: Triple, compression: int, cmd: Cmd): seq<char> {
    MkSeco(t) + "/" + Hex04(t.tert) + (if Gzipped(compression, cmd) then ".gz" else "")
  }

  /** dpth_mk_prim: "%04X" of the first component. */
  function MkPrim(t: Triple): seq<char> {
    Hex04(t.prim)
  }

  /** dpth_mk_seco: "%04X/%04X" of the first two components. */
  function MkSeco(t: Triple): seq<char> {
    MkPrim(t) + "/" + Hex04(t.seco)
  }

  /** The rendering is three four-digit upper-case hex fields holding the
      components, separated by '/', and ".gz" is appended exactly when the
      data is compressed and not an EFS file. */
  lemma MkShape(t: Triple, compression: int, cmd: Cmd)
    ensures var s := Mk(t, compression, cmd);
            && |s| == (if Gzipped(compression, cmd) then 17 else 14)
            && s[4] == '/' && s[9] == '/'
            && AllHex(s[0..4]) && HexValue(s[0..4]) == t.prim
            && AllHex(s[5..9]) && HexValue(s[5..9]) == t.seco
            && AllHex(s[10..14]) && HexValue(s[10..14]) == t.tert
            && (Gzipped(compression, cmd) ==> s[14..] == ".gz")
  {
    var s := Mk(t, compression, cmd);
    Hex04Value(t.prim);
    Hex04Value(t.seco);
    Hex04Value(t.tert);
    assert s[0..4] == Hex04(t.prim);
    assert s[5..9] == Hex04(t.seco);
    assert s[10..14] == Hex04(t.tert);
  }

  /** A rendered data path holds no NUL, so it is its own C string. */
  lemma MkNoNul(t: Triple, compression: int, cmd: Cmd)
    ensures CStr(Mk(t, compression, cmd)) == Mk(t, compression, cmd)
  {
    var s := Mk(t, compression, cmd);
    MkShape(t, compression, cmd);
    assert forall i :: 0 <= i < |s| ==> s[i] != '\0' by {
      forall i | 0 <= i < |s| ensures s[i] != '\0' {
        if i < 4 { assert IsHexDigit(s[0..4][i]); }
        else if 5 <= i < 9 { assert IsHexDigit(s[5..9][i - 5]); }
        else if 10 <= i < 14 { assert IsHexDigit(s[10..14][i - 10]); }
      }
    }
    NoNulCStr(s);
  }

  /** The directory names init walks through are prefixes of the data
      path rendered from the same cursor. */
  lemma MkPrefixes(t: Triple, compression: int, cmd: Cmd)
    ensures MkPrim(t) <= MkSeco(t) <= Mk(t, compression, cmd)
    ensures |MkPrim(t)| == 4 && |MkSeco(t)| == 9
  {
    Hex04Value(t.prim);
    Hex04Value(t.seco);
    var s := Mk(t, compression, cmd);
    assert s == MkSeco(t) + ("/" + Hex04(t.tert) + (if Gzipped(compression, cmd) then ".gz" else ""));
  }

  // ---------------------------------------------------------------------
  // Parsing a data path

  /** One "%04X" conversion followed by the literal '/' of the format:
      the value and what follows the '/'. */
  function ScanField(s: seq<char>): (r: Option<(U16, seq<char>)>)
    ensures r.Some? ==> |r.value.1| < |s|
  {
    var h := ScanHex(s, 4);
    if h.Some? && h.value.1 < |s| && s[h.value.1] == '/' then Some((h.value.0, s[h.value.1 + 1..]))
    else None
  }

  /** sscanf(s, "%04X/%04X/%04X", ...) == 3: the three components, or None
      when any conversion or either separator is missing. */
  function ScanTriple(s: seq<char>): (r: Option<Triple>)
  {
    var f1 := ScanField(s);
    if f1.None? then None
    else
      var f2 := ScanField(f1.value.1);
      if f2.None? then None
      else
        var f3 := ScanHex(f2.value.1, 4);
        if f3.None? then None
        else Some(Triple(f1.value.0, f2.value.0, f3.value.0))
  }

  lemma ScanFieldHex04(v: U16, rest: seq<char>)
    ensures ScanField(Hex04(v) + "/" + rest) == Some((v, rest))
  {
    var s := Hex04(v) + "/" + rest;
    ScanHex04(v, "/" + rest);
    assert s == Hex04(v) + ("/" + rest);
    Hex04Value(v);
    assert s[5..] == rest;
  }

  /** Scanning a rendered data path gives back the cursor it was rendered
      from, with or without the ".gz" suffix. */
  lemma MkRoundTrip(t: Triple, compression: int, cmd: Cmd)
    ensures ScanTriple(CStr(Mk(t, compression, cmd))) == Some(t)
  {
    var sfx: seq<char> := if Gzipped(compression, cmd) then ".gz" else "";
    var s := Mk(t, compression, cmd);
    MkNoNul(t, compression, cmd);
    var r2 := Hex04(t.tert) + sfx;
    var r1 := Hex04(t.seco) + "/" + r2;
    assert s == Hex04(t.prim) + "/" + r1;
    ScanFieldHex04(t.prim, r1);
    ScanFieldHex04(t.seco, r2);
    ScanHex04(t.tert, sfx);
  }

  /** dpth_protocol1_set_from_string on the cursor `cur`: the return code
      and the new cursor. No string, or one naming a tree-style path
      (leading 't'), is ignored; a string that does not scan is an error;
      a scanned path is adopted only when no component would go down. */
  function SetFromStringSpec(cur: Triple, datapath: Option<seq<char>>): (r: (int, Triple))
  {
    if datapath.None? || (datapath.value != [] && datapath.value[0] == 't') then (0, cur)
    else
      var scanned := ScanTriple(CStr(datapath.value));
      if scanned.None? then (-1, cur)
      else
        var t := scanned.value;
        if cur.prim > t.prim || cur.seco > t.seco || cur.tert > t.tert then (0, cur)
        else (0, t)
  }

  /** No string, or a tree-style one, leaves the cursor alone without
      error; a string that does not scan is the only error and leaves the
      cursor alone too. */
  lemma SetFromStringCodes(cur: Triple, datapath: Option<seq<char>>)
    ensures var r := SetFromStringSpec(cur, datapath);
            && (r.0 == 0 || r.0 == -1)
            && (r.0 == -1 <==> datapath.Some? && !(datapath.value != [] && datapath.value[0] == 't')
                               && ScanTriple(CStr(datapath.value)).None?)
            && (datapath.None? ==> r.1 == cur)
            && (datapath.Some? && datapath.value != [] && datapath.value[0] == 't' ==> r.1 == cur)
            && (r.0 == -1 ==> r.1 == cur)
  {
  }

  /** The cursor moves only to a scanned triple that covers it, and moves
      to every such triple. */
  lemma SetFromStringAdopts(cur: Triple, datapath: Option<seq<char>>)
    ensures var r := SetFromStringSpec(cur, datapath);
            && (r.1 == cur || (datapath.Some? && ScanTriple(CStr(datapath.value)) == Some(r.1)))
            && (datapath.Some? && !(datapath.value != [] && datapath.value[0] == 't')
                && ScanTriple(CStr(datapath.value)).Some?
                ==> (r.1 == ScanTriple(CStr(datapath.value)).value
                     <==> Covers(ScanTriple(CStr(datapath.value)).value, cur)))
  {
  }

  /** No component of the cursor ever goes down. */
  lemma SetFromStringMonotone(cur: Triple, datapath: Option<seq<char>>)
    ensures Covers(SetFromStringSpec(cur, datapath).1, cur)
  {
  }

  /** Applying the same data path twice is the same as applying it once. */
  lemma SetFromStringIdempotent(cur: Triple, datapath: Option<seq<char>>)
    ensures var once := SetFromStringSpec(cur, datapath);
            SetFromStringSpec(once.1, datapath) == once
  {
  }

  /** A data path rendered by Mk moves the cursor to its triple exactly
      when that triple covers the cursor. */
  lemma SetFromRendered(cur: Triple, t: Triple, compression: int, cmd: Cmd)
    ensures SetFromStringSpec(cur, Some(Mk(t, compression, cmd))).0 == 0
    ensures SetFromStringSpec(cur, Some(Mk(t, compression, cmd))).1
            == (if Covers(t, cur) then t else cur)
  {
    var s := Mk(t, compression, cmd);
    MkRoundTrip(t, compression, cmd);
    MkShape(t, compression, cmd);
    MkNoNul(t, compression, cmd);
    assert IsHexDigit(s[0..4][0]);
    SetFromScanned(cur, s, t);
  }

  lemma SetFromScanned(cur: Triple, d: seq<char>, t: Triple)
    requires d != [] && d[0] != 't' && ScanTriple(CStr(d)) == Some(t)
    ensures SetFromStringSpec(cur, Some(d)).0 == 0
    ensures SetFromStringSpec(cur, Some(d)).1 == (if Covers(t, cur) then t else cur)
  {
  }

  /** The adoption test is per component: 0001/0000/0000 follows
      0000/0005/0000 in the order paths are allocated, yet it is ignored. */
  lemma SetFromStringNotLexicographic()
    ensures SetFromStringSpec(Triple(0, 5, 0), Some(Mk(Triple(1, 0, 0), 0, CMD_FILE))).1 == Triple(0, 5, 0)
  {
    SetFromRendered(Triple(0, 5, 0), Triple(1, 0, 0), 0, CMD_FILE);
  }

  // ---------------------------------------------------------------------
  // Recovering the cursor from disk

  /** One directory entry as readdir returns it. */
  datatype DirEnt = DirEnt(ino: nat, name: seq<char>)

  /** The storage tree: the listing of each directory that exists, keyed
      by its path relative to the base directory ("" for the base). */
  type Storage = map<seq<char>, seq<DirEnt>>

  /** opendir: the entries, or None when the directory cannot be opened. */
  function Listing(fs: Storage, rel: seq<char>): Option<seq<DirEnt>> {
    if rel in fs then Some(fs[rel]) else None
  }

  /** Entries get_highest_entry looks at: not a freed slot, not "." or
      "..". */
  predicate Counted(e: DirEnt) {
    e.ino != 0 && !StrEq(e.name, ".") && !StrEq(e.name, "..")
  }

  /** `int ent = strtol(name, NULL, 16)`. */
  function EntValue(e: DirEnt): int {
    ToInt32(Strtol16(e.name))
  }

  /** What an entry contributes to the search: its value when it is
      counted, and -1, which never beats the maximum, when it is not. */
  function Key(e: DirEnt): int {
    if Counted(e) then EntValue(e) else -1
  }

  function Keys(ents: seq<DirEnt>): (ks: seq<int>)
    ensures |ks| == |ents| && forall i :: 0 <= i < |ents| ==> ks[i] == Key(ents[i])
  {
    seq(|ents|, i requires 0 <= i < |ents| => Key(ents[i]))
  }

  /** One step of the loop: a larger value replaces the maximum, cut down
      to 16 bits as it is stored in the `uint16_t`. */
  function Step(m: U16, k: int): U16 {
    if k > m then ToUint16(k) else m
  }

  /** The loop of get_highest_entry over the keys `ks`, starting from `m`. */
  function Scan(ks: seq<int>, m: U16): U16
    decreases |ks|
  {
    if ks == [] then m else Scan(ks[1..], Step(m, ks[0]))
  }

  /** get_highest_entry: 0 for a directory that cannot be opened. */
  function Highest(listing: Option<seq<DirEnt>>): U16 {
    match listing
    case None => 0
    case Some(ents) => Scan(Keys(ents), 0)
  }

  /** Every counted name's value fits 16 bits. */
  predicate AllInRange(ents: seq<DirEnt>) {
    forall i :: 0 <= i < |ents| && Counted(ents[i]) ==> EntValue(ents[i]) < 0x10000
  }

  /** When no key is above 0xFFFF, the loop computes the largest key (at
      least its start), and that value is the start or one of the keys. */
  lemma {:induction false} ScanIsMax(ks: seq<int>, m: U16)
    requires forall i :: 0 <= i < |ks| ==> ks[i] < 0x10000
    ensures m <= Scan(ks, m)
    ensures forall i :: 0 <= i < |ks| ==> ks[i] <= Scan(ks, m)
    ensures Scan(ks, m) == m || exists i :: 0 <= i < |ks| && ks[i] == Scan(ks, m)
    decreases |ks|
  {
    if ks != [] {
      var rest := ks[1..];
      var m' := Step(m, ks[0]);
      ScanIsMax(rest, m');
      var r := Scan(ks, m);
      assert r == Scan(rest, m');
      forall i | 0 <= i < |ks| ensures ks[i] <= r {
        if i > 0 { assert ks[i] == rest[i - 1]; }
      }
      if r != m {
        if r == m' {
          assert ks[0] == r;
        } else {
          var j :| 0 <= j < |rest| && rest[j] == r;
          assert ks[j + 1] == rest[j];
        }
      }
    }
  }

  /** get_highest_entry over directory names within 16 bits is their
      maximum, and 0 for an empty or missing directory. */
  lemma HighestIsMax(listing: Option<seq<DirEnt>>)
    requires listing.Some? ==> AllInRange(listing.value)
    ensures listing.None? ==> Highest(listing) == 0
    ensures listing.Some? ==> forall i :: 0 <= i < |listing.value| && Counted(listing.value[i])
                                ==> EntValue(listing.value[i]) <= Highest(listing)
    ensures listing.Some? && Highest(listing) != 0 ==>
              exists i :: 0 <= i < |listing.value| && Counted(listing.value[i])
                          && EntValue(listing.value[i]) == Highest(listing)
  {
    if listing.Some? {
      var ents := listing.value;
      var ks := Keys(ents);
      ScanIsMax(ks, 0);
      var r := Highest(listing);
      if r != 0 {
        var j :| 0 <= j < |ks| && ks[j] == r;
        assert Counted(ents[j]) && EntValue(ents[j]) == r;
      }
    }
  }

  /** Only the leading hex digits of a name count: a name made of the
      "%04X" rendering of v followed by a suffix such as ".gz" counts as v
      (when v fits an `int`), and a name that starts with a character
      that is neither a hex digit, white space nor a sign counts as 0. */
  lemma NameValue(ino: nat, v: nat, sfx: seq<char>)
    requires v < 0x8000_0000 && '\0' !in sfx
    requires sfx == [] || !IsHexDigit(sfx[0])
    ensures EntValue(DirEnt(ino, Hex04(v) + sfx)) == v
  {
    var h := Hex04(v);
    if v < 0x10000 { Hex04Value(v); } else { Hex04Long(v); }
    assert AllHex(h) && HexValue(h) == v && |h| >= 4;
    var s := h + sfx;
    assert s[..|h|] == h;
    assert forall i :: 0 <= i < |s| ==> s[i] != '\0' by {
      forall i | 0 <= i < |s| ensures s[i] != '\0' {
        if i < |h| { assert IsHexDigit(h[i]); } else { assert s[i] == sfx[i - |h|]; }
      }
    }
    assert IsHexDigit(s[0]) && IsHexDigit(s[1]);
    Strtol16Plain(s, |h|);
  }

  lemma NameWithoutDigits(ino: nat, s: seq<char>)
    requires '\0' !in s && s != [] && !IsHexDigit(s[0]) && !IsSpace(s[0]) && s[0] != '-' && s[0] != '+'
    ensures EntValue(DirEnt(ino, s)) == 0
  {
    Strtol16Plain(s, 0);
  }

  /** A value above 0xFFFF is stored cut down to 16 bits, so the result
      depends on the order readdir returns the names in: keys 5 then
      0x10000 end at 0, the other way round at 5. */
  lemma HighestTruncates()
    ensures Scan([5, 0x10000], 0) == 0
    ensures Scan([0x10000, 5], 0) == 5
  {
    assert Scan([5, 0x10000], 0) == Scan([0x10000], 5) == Scan([], 0);
    assert [5, 0x10000][1..] == [0x10000];
    assert [0x10000, 5][1..] == [5];
    assert Scan([0x10000, 5], 0) == Scan([5], 0) == Scan([], 5);
  }

  /** get_highest_entry. */
  method GetHighestEntry(listing: Option<seq<DirEnt>>) returns (max: U16)
    ensures max == Highest(listing)
  {
    max := 0;
    if listing.None? {
      return;
    }
    var ents := listing.value;
    ghost var ks := Keys(ents);
    var i := 0;
    while i < |ents|
      invariant 0 <= i <= |ents|
      invariant Scan(ks[i..], max) == Scan(ks, 0)
    {
      var e := ents[i];
      assert ks[i..][1..] == ks[i + 1..];
      if e.ino == 0 || StrEq(e.name, ".") || StrEq(e.name, "..") {
        i := i + 1;
        continue;
      }
      var ent := ToInt32(Strtol16(e.name));
      if ent > max {
        max := ToUint16(ent);
      }
      i := i + 1;
    }
  }

  /** The directory get_next_comp opens: the base directory itself, or the
      given path below it (prepend_s). */
  function CompDir(path: Option<seq<char>>): seq<char> {
    match path
    case None => ""
    case Some(p) => p
  }

  /** get_next_comp. Allocating the joined path is the only way it can
      fail, and allocation failure is not part of this model, so the
      result code is always 0. */
  method GetNextComp(fs: Storage, path: Option<seq<char>>) returns (ret: int, comp: U16)
    ensures ret == 0
    ensures comp == Highest(Listing(fs, CompDir(path)))
  {
    var tmp := CompDir(path);
    comp := GetHighestEntry(Listing(fs, tmp));
    ret := 0;
  }

  /** What init finds on disk before incrementing: the highest prim in the
      base directory, the highest seco inside that prim directory and the
      highest tert inside that prim/seco directory. */
  function Located(fs: Storage): (t: Triple)
  {
    var p := Highest(Listing(fs, ""));
    var s := Highest(Listing(fs, MkPrim(Triple(p, 0, 0))));
    var r := Highest(Listing(fs, MkSeco(Triple(p, s, 0))));
    Triple(p, s, r)
  }

  /** A missing directory is read as 0 without error, at each of the
      three levels. */
  lemma LocatedMissing(fs: Storage)
    ensures var t := Located(fs);
            && ("" !in fs ==> t.prim == 0)
            && (MkPrim(t) !in fs ==> t.seco == 0)
            && (MkSeco(t) !in fs ==> t.tert == 0)
  {
    var t := Located(fs);
    assert MkPrim(t) == MkPrim(Triple(t.prim, 0, 0));
    assert MkSeco(t) == MkSeco(Triple(t.prim, t.seco, 0));
  }

  /** Each located component is the largest name in the directory it was
      looked for in, when every name there fits 16 bits. */
  lemma LocatedIsHighest(fs: Storage)
    requires forall rel :: rel in fs ==> AllInRange(fs[rel])
    ensures var t := Located(fs);
            && ("" in fs ==> forall i :: 0 <= i < |fs[""]| && Counted(fs[""][i])
                               ==> EntValue(fs[""][i]) <= t.prim)
            && (MkPrim(t) in fs ==> forall i :: 0 <= i < |fs[MkPrim(t)]| && Counted(fs[MkPrim(t)][i])
                                      ==> EntValue(fs[MkPrim(t)][i]) <= t.seco)
            && (MkSeco(t) in fs ==> forall i :: 0 <= i < |fs[MkSeco(t)]| && Counted(fs[MkSeco(t)][i])
                                      ==> EntValue(fs[MkSeco(t)][i]) <= t.tert)
  {
    var t := Located(fs);
    HighestIsMax(Listing(fs, ""));
    assert MkPrim(t) == MkPrim(Triple(t.prim, 0, 0));
    HighestIsMax(Listing(fs, MkPrim(t)));
    assert MkSeco(t) == MkSeco(Triple(t.prim, t.seco, 0));
    HighestIsMax(Listing(fs, MkSeco(t)));
  }

  /** `struct dpth` for protocol 1. */
  class Cursor {
    var prim: U16
    var seco: U16
    var tert: U16
    var maxStorageSubdirs: int

    function Current(): (t: Triple)
      reads this
      ensures t.prim == prim && t.seco == seco && t.tert == tert
    {
      Triple(prim, seco, tert)
    }

    constructor ()
      ensures Current() == Triple(0, 0, 0) && maxStorageSubdirs == 0
    {
      prim, seco, tert := 0, 0, 0;
      maxStorageSubdirs := 0;
    }

    /** dpth_protocol1_init. `incr` stands for dpth_incr, whose body is not
        part of this model: it is given the located cursor and the limit
        and gives the next cursor and its result code. It is called
        exactly once; only its -1 is passed on. */
    method Init(fs: Storage, maxStorageSubdirs: int, incr: (Triple, int) -> (Triple, int))
      returns (ret: int)
      modifies this
      ensures this.maxStorageSubdirs == maxStorageSubdirs
      ensures Current() == incr(Located(fs), maxStorageSubdirs).0
      ensures ret == (if incr(Located(fs), maxStorageSubdirs).1 == -1 then -1 else 0)
    {
      prim, seco, tert := 0, 0, 0;
      this.maxStorageSubdirs := maxStorageSubdirs;
      var r, c := GetNextComp(fs, None);
      prim := c;
      r, c := GetNextComp(fs, Some(MkPrim(Current())));
      seco := c;
      r, c := GetNextComp(fs, Some(MkSeco(Current())));
      tert := c;
      var next := incr(Current(), this.maxStorageSubdirs);
      prim, seco, tert := next.0.prim, next.0.seco, next.0.tert;
      r := next.1;
      ret := if r == -1 then -1 else 0;
    }

    /** dpth_protocol1_set_from_string. */
    method SetFromString(datapath: Option<seq<char>>) returns (ret: int)
      modifies this`prim, this`seco, this`tert
      ensures ret == SetFromStringSpec(old(Current()), datapath).0
      ensures Current() == SetFromStringSpec(old(Current()), datapath).1
    {
      if datapath.None? || (datapath.value != [] && datapath.value[0] == 't') {
        return 0;
      }
      var scanned := ScanTriple(CStr(datapath.value));
      if scanned.None? {
        return -1;
      }
      var t := scanned.value;
      if prim > t.prim || seco > t.seco || tert > t.tert {
        return 0;
      }
      prim, seco, tert := t.prim, t.seco, t.tert;
      return 0;
    }
  }
}
