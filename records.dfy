/** The vocabulary shared by burp's protocol-1 data layer: the command
    letters records are tagged with, the record buffer (`struct iobuf`),
    the status codes readers return, and the asynchronous channel
    (`struct asfd`) seen as a list of incoming records and a list of
    records sent. */
module Records {
  import opened Libc

  /** A record's command letter. Burp's cmd.h, which defines the letters,
      is not part of this model: the values below are burp's, and the
      proofs depend only on their being distinct. */
  type Cmd = char

  const CMD_ATTRIBS: Cmd := 'r'
  /** The listing client's name for the attributes record. */
  const CMD_STAT: Cmd := CMD_ATTRIBS
  const CMD_FILE: Cmd := 'f'
  const CMD_ENC_FILE: Cmd := 'y'
  const CMD_METADATA: Cmd := 'm'
  const CMD_ENC_METADATA: Cmd := 'n'
  const CMD_DIRECTORY: Cmd := 'd'
  const CMD_HARD_LINK: Cmd := 'l'
  const CMD_SOFT_LINK: Cmd := 'L'
  const CMD_SPECIAL: Cmd := 's'
  const CMD_EFS_FILE: Cmd := 'k'
  const CMD_DATAPTH: Cmd := 't'
  const CMD_END_FILE: Cmd := 'x'
  const CMD_GEN: Cmd := 'c'
  const CMD_ERROR: Cmd := 'e'
  const CMD_WARNING: Cmd := 'W'
  const CMD_TIMESTAMP: Cmd := 'b'

  /** cmd_is_link */
  predicate IsLinkCmd(c: Cmd) {
    c == CMD_HARD_LINK || c == CMD_SOFT_LINK
  }

  /** cmd_is_filedata: the entry kinds whose data follows the entry. */
  predicate IsFiledataCmd(c: Cmd) {
    c == CMD_FILE || c == CMD_ENC_FILE || c == CMD_METADATA
    || c == CMD_ENC_METADATA || c == CMD_EFS_FILE
  }

  /** cmd_is_endfile */
  predicate IsEndfileCmd(c: Cmd) {
    c == CMD_END_FILE
  }

  /** One record: its command letter and its payload. */
  datatype IoBuf = IoBuf(cmd: Cmd, buf: seq<char>)

  /** What a read of one item gives: the item, a clean end of input (C code
      1), or an error (C code -1). */
  datatype Read<T> = Got(value: T) | Eof | Fail {
    function Code(): int {
      match this
      case Got(_) => 0
      case Eof => 1
      case Fail => -1
    }
  }

  /** The three-way result of the entry readers: 0, 1 (end) or -1. */
  datatype Status = Ok | End | Err {
    function Code(): int {
      match this
      case Ok => 0
      case End => 1
      case Err => -1
    }
  }

  /** The status a failed read propagates. */
  function StatusOf<T>(r: Read<T>): (s: Status)
    ensures s.Code() == r.Code()
  {
    match r
    case Got(_) => Ok
    case Eof => End
    case Fail => Err
  }

  /** The records of `s` that go out before a channel with room for `n`
      more writes breaks. */
  function Take<T>(s: seq<T>, n: nat): (r: seq<T>)
    ensures r <= s
    ensures |r| == if n < |s| then n else |s|
  {
    if n < |s| then s[..n] else s
  }

  lemma TakeAppend<T>(a: seq<T>, b: seq<T>, n: nat)
    ensures Take(a + b, n) == if n <= |a| then Take(a, n) else a + Take(b, n - |a|)
  {
    if n > |a| && n < |a| + |b| {
      assert (a + b)[..n] == a + b[..n - |a|];
    } else if n <= |a| {
      assert (a + b)[..n] == a[..n];
    }
  }

  /** The concatenation of what f gives for each element, in order. */
  function FlatMap<A, B>(f: A -> seq<B>, s: seq<A>): seq<B> {
    if s == [] then [] else f(s[0]) + FlatMap(f, s[1..])
  }

  lemma {:induction false} FlatMapAppend<A, B>(f: A -> seq<B>, a: seq<A>, b: seq<A>)
    ensures FlatMap(f, a + b) == FlatMap(f, a) + FlatMap(f, b)
    decreases |a|
  {
    if a == [] {
      assert a + b == b;
    } else {
      assert (a + b)[0] == a[0] && (a + b)[1..] == a[1..] + b;
      FlatMapAppend(f, a[1..], b);
    }
  }

  /** Bookkeeping for a writer that sends `recs` in order: after the first
      k went out, the (k+1)-th write either extends the sent prefix or
      fails, leaving exactly the records that fit. */
  lemma SendNext<T>(o: seq<T>, recs: seq<T>, k: nat, room: nat, sent: seq<T>)
    requires k < |recs| && k <= room
    requires sent == (o + recs[..k]) + Take([recs[k]], room - k)
    ensures k < room ==> sent == o + recs[..k + 1]
    ensures k == room ==> sent == o + Take(recs, room)
  {
    if k < room {
      assert Take([recs[k]], room - k) == [recs[k]];
      assert recs[..k + 1] == recs[..k] + [recs[k]];
    } else {
      assert Take([recs[k]], 0) == [];
      assert o + recs[..k] + [] == o + recs[..k];
    }
  }

  /** The record a read of the channel at position `pos` yields, and the
      position after it. Running out of records is a read error. */
  function NextIncoming(records: seq<IoBuf>, pos: nat): (r: (Read<IoBuf>, nat))
    ensures r.0.Got? <==> pos < |records|
    ensures r.0.Got? ==> r.0.value == records[pos] && r.1 == pos + 1
    ensures !r.0.Got? ==> r.0.Fail? && r.1 == pos
  {
    if pos < |records| then (Got(records[pos]), pos + 1) else (Fail, pos)
  }

  /** The asynchronous channel to the peer: the records it will deliver,
      how many have been read, what has been sent, and how many more writes
      succeed before the connection breaks. */
  class Asfd {
    const incoming: seq<IoBuf>
    var inPos: nat
    var sent: seq<IoBuf>
    var room: nat

    ghost predicate Valid()
      reads this
    {
      inPos <= |incoming|
    }

    constructor (incoming: seq<IoBuf>, room: nat)
      ensures Valid()
      ensures this.incoming == incoming && inPos == 0
      ensures sent == [] && this.room == room
    {
      this.incoming := incoming;
      inPos := 0;
      sent := [];
      this.room := room;
    }

    /** asfd->read: the next incoming record; -1 when there is none. */
    method Read() returns (r: Read<IoBuf>)
      requires Valid()
      modifies this`inPos
      ensures Valid()
      ensures (r, inPos) == NextIncoming(incoming, old(inPos))
    {
      if inPos < |incoming| {
        r := Got(incoming[inPos]);
        inPos := inPos + 1;
      } else {
        r := Fail;
      }
    }

    /** asfd->write / write_str: true on success. */
    method Write(rec: IoBuf) returns (ok: bool)
      modifies this`sent, this`room
      ensures ok <==> old(room) > 0
      ensures sent == old(sent) + Take([rec], old(room))
      ensures room == old(room) - |Take([rec], old(room))|
    {
      ok := room > 0;
      if ok {
        sent := sent + [rec];
        room := room - 1;
      }
    }
  }

  /** The channel started with `o` sent and room for `r` more writes, and
      the first k of `recs` have gone out. */
  ghost predicate Sending(a: Asfd, o: seq<IoBuf>, r: nat, recs: seq<IoBuf>, k: nat)
    reads a
  {
    k <= |recs| && k <= r && a.sent == o + recs[..k] && a.room == r - k
  }

  /** The channel started with `o` sent and room `r`, and `recs` were sent
      in order up to the first write that failed. */
  ghost predicate SentAll(a: Asfd, o: seq<IoBuf>, r: nat, recs: seq<IoBuf>)
    reads a
  {
    a.sent == o + Take(recs, r) && a.room == r - |Take(recs, r)|
  }

  /** One write of a sender that sends `recs` in order: the k-th. */
  method Send(a: Asfd, rec: IoBuf, ghost o: seq<IoBuf>, ghost r: nat, ghost recs: seq<IoBuf>, ghost k: nat)
    returns (ok: bool)
    requires Sending(a, o, r, recs, k) && k < |recs| && recs[k] == rec
    modifies a`sent, a`room
    ensures ok ==> Sending(a, o, r, recs, k + 1)
    ensures !ok ==> SentAll(a, o, r, recs) && r < |recs|
  {
    ok := a.Write(rec);
    SendNext(o, recs, k, r, a.sent);
  }

  lemma SendingStart(a: Asfd, recs: seq<IoBuf>)
    ensures Sending(a, a.sent, a.room, recs, 0)
  {
    assert a.sent + recs[..0] == a.sent;
  }

  lemma SendingDone(a: Asfd, o: seq<IoBuf>, r: nat, recs: seq<IoBuf>)
    requires Sending(a, o, r, recs, |recs|)
    ensures SentAll(a, o, r, recs)
  {
    assert recs[..|recs|] == recs == Take(recs, r);
  }

  /** Sending x in full and then y is sending x + y. */
  lemma SentAllAppend(a: Asfd, o: seq<IoBuf>, r: nat, x: seq<IoBuf>, y: seq<IoBuf>)
    requires |x| <= r && SentAll(a, o + x, r - |x|, y)
    ensures SentAll(a, o, r, x + y)
  {
    TakeAppend(x, y, r);
    if r == |x| {
      assert Take(y, 0) == [];
      assert Take(x, r) == x;
    }
    assert o + x + Take(y, r - |x|) == o + (x + Take(y, r - |x|));
  }

  /** A failed send of x is a failed send of x + y. */
  lemma SentAllPrefix(a: Asfd, o: seq<IoBuf>, r: nat, x: seq<IoBuf>, y: seq<IoBuf>)
    requires r < |x| && SentAll(a, o, r, x)
    ensures SentAll(a, o, r, x + y)
  {
    TakeAppend(x, y, r);
  }
}
