/** The listing client (src/list_client.c): the `ls -l` mode string, the
    JSON string escaper, the bracket nesting of the JSON output, the
    " (deletable)" marker on a backup's timestamp, and the loop that reads
    the server's records and decides what is listed. */
module ListClient {
  import opened Libc
  import opened Records

  // =====================================================================
  // encode_mode

  /** `mode_t`. The file-type and permission bits are the POSIX ones with
      Linux's values (sys/stat.h is not part of this model). */
  type Mode = bv32

  const S_IFMT: Mode := 0xF000
  const S_IFSOCK: Mode := 0xC000
  const S_IFLNK: Mode := 0xA000
  const S_IFREG: Mode := 0x8000
  const S_IFBLK: Mode := 0x6000
  const S_IFDIR: Mode := 0x4000
  const S_IFCHR: Mode := 0x2000
  const S_IFIFO: Mode := 0x1000
  const S_ISUID: Mode := 0x800
  const S_ISGID: Mode := 0x400
  const S_ISVTX: Mode := 0x200
  const S_IRUSR: Mode := 0x100
  const S_IWUSR: Mode := 0x80
  const S_IXUSR: Mode := 0x40
  const S_IRGRP: Mode := 0x20
  const S_IWGRP: Mode := 0x10
  const S_IXGRP: Mode := 0x8
  const S_IROTH: Mode := 0x4
  const S_IWOTH: Mode := 0x2
  const S_IXOTH: Mode := 0x1

  /** The file-type letter: d, b, c, l, p or s, and '-' for a regular file
      or any other type. */
  function TypeChar(m: Mode): char {
    var t := m & S_IFMT;
    if t == S_IFDIR then 'd'
    else if t == S_IFBLK then 'b'
    else if t == S_IFCHR then 'c'
    else if t == S_IFLNK then 'l'
    else if t == S_IFIFO then 'p'
    else if t == S_IFSOCK then 's'
    else '-'
  }

  /** A read or write position: its letter when the bit is set. */
  function PermChar(m: Mode, bit: Mode, c: char): char {
    if m & bit != 0 then c else '-'
  }

  /** An execute position, which also shows the set-id or sticky bit:
      lower case when both are set, upper case for the special bit alone. */
  function ExecChar(m: Mode, special: Mode, exec: Mode, lower: char, upper: char): char {
    if m & special != 0 then (if m & exec != 0 then lower else upper)
    else (if m & exec != 0 then 'x' else '-')
  }

  /** The ten characters encode_mode writes. */
  function ModeString(m: Mode): seq<char> {
    [TypeChar(m),
     PermChar(m, S_IRUSR, 'r'), PermChar(m, S_IWUSR, 'w'), ExecChar(m, S_ISUID, S_IXUSR, 's', 'S'),
     PermChar(m, S_IRGRP, 'r'), PermChar(m, S_IWGRP, 'w'), ExecChar(m, S_ISGID, S_IXGRP, 's', 'S'),
     PermChar(m, S_IROTH, 'r'), PermChar(m, S_IWOTH, 'w'), ExecChar(m, S_ISVTX, S_IXOTH, 't', 'T')]
  }

  /** The types encode_mode gives a letter of their own, and regular files. */
  predicate KnownType(m: Mode) {
    var t := m & S_IFMT;
    t == S_IFDIR || t == S_IFBLK || t == S_IFCHR || t == S_IFLNK
    || t == S_IFIFO || t == S_IFSOCK || t == S_IFREG
  }

  /** Reading a mode string back, as `ls -l` output is read. */
  function TypeOf(c: char): Mode {
    match c
    case 'd' => S_IFDIR
    case 'b' => S_IFBLK
    case 'c' => S_IFCHR
    case 'l' => S_IFLNK
    case 'p' => S_IFIFO
    case 's' => S_IFSOCK
    case _ => S_IFREG
  }

  /** A read or write position read back. */
  function ReadBit(c: char, on: char, bit: Mode): Mode {
    if c == on then bit else 0
  }

  /** An execute position read back: the execute bit for 'x' and the
      lower-case letter, the special bit for either letter. */
  function ExecBits(c: char, lower: char, upper: char, special: Mode, exec: Mode): Mode {
    (if c == 'x' || c == lower then exec else 0) | (if c == lower || c == upper then special else 0)
  }

  /** One rwx triple read back. */
  function TripleBits(r: char, w: char, x: char, rbit: Mode, wbit: Mode, xbit: Mode,
                      special: Mode, lower: char, upper: char): Mode {
    ReadBit(r, 'r', rbit) | ReadBit(w, 'w', wbit) | ExecBits(x, lower, upper, special, xbit)
  }

  function DecodeMode(s: seq<char>): Mode
    requires |s| == 10
  {
    TypeOf(s[0])
    | TripleBits(s[1], s[2], s[3], S_IRUSR, S_IWUSR, S_IXUSR, S_ISUID, 's', 'S')
    | TripleBits(s[4], s[5], s[6], S_IRGRP, S_IWGRP, S_IXGRP, S_ISGID, 's', 'S')
    | TripleBits(s[7], s[8], s[9], S_IROTH, S_IWOTH, S_IXOTH, S_ISVTX, 't', 'T')
  }

  lemma UserBits(m: Mode)
    ensures TripleBits(PermChar(m, S_IRUSR, 'r'), PermChar(m, S_IWUSR, 'w'), ExecChar(m, S_ISUID, S_IXUSR, 's', 'S'),
                       S_IRUSR, S_IWUSR, S_IXUSR, S_ISUID, 's', 'S')
            == m & (S_IRUSR | S_IWUSR | S_IXUSR | S_ISUID)
  {
  }

  lemma GroupBits(m: Mode)
    ensures TripleBits(PermChar(m, S_IRGRP, 'r'), PermChar(m, S_IWGRP, 'w'), ExecChar(m, S_ISGID, S_IXGRP, 's', 'S'),
                       S_IRGRP, S_IWGRP, S_IXGRP, S_ISGID, 's', 'S')
            == m & (S_IRGRP | S_IWGRP | S_IXGRP | S_ISGID)
  {
  }

  lemma OtherBits(m: Mode)
    ensures TripleBits(PermChar(m, S_IROTH, 'r'), PermChar(m, S_IWOTH, 'w'), ExecChar(m, S_ISVTX, S_IXOTH, 't', 'T'),
                       S_IROTH, S_IWOTH, S_IXOTH, S_ISVTX, 't', 'T')
            == m & (S_IROTH | S_IWOTH | S_IXOTH | S_ISVTX)
  {
  }

  /** The type letter read back: the type itself for a known type, and
      never a permission bit. */
  lemma TypeBits(m: Mode)
    ensures TypeOf(TypeChar(m)) & 0xFFF == 0
    ensures KnownType(m) ==> TypeOf(TypeChar(m)) == m & S_IFMT
  {
  }

  /** Decoding ten characters whose type letter and triples read back as
      given. */
  lemma DecodeParts(s: seq<char>, t: Mode, u: Mode, g: Mode, o: Mode)
    requires |s| == 10 && TypeOf(s[0]) == t
    requires TripleBits(s[1], s[2], s[3], S_IRUSR, S_IWUSR, S_IXUSR, S_ISUID, 's', 'S') == u
    requires TripleBits(s[4], s[5], s[6], S_IRGRP, S_IWGRP, S_IXGRP, S_ISGID, 's', 'S') == g
    requires TripleBits(s[7], s[8], s[9], S_IROTH, S_IWOTH, S_IXOTH, S_ISVTX, 't', 'T') == o
    ensures DecodeMode(s) == t | u | g | o
  {
  }

  /** The mode string read back is the type read back together with the
      three triples read back. */
  lemma DecodeModeString(m: Mode)
    ensures DecodeMode(ModeString(m))
            == TypeOf(TypeChar(m)) | (m & (S_IRUSR | S_IWUSR | S_IXUSR | S_ISUID))
               | (m & (S_IRGRP | S_IWGRP | S_IXGRP | S_ISGID)) | (m & (S_IROTH | S_IWOTH | S_IXOTH | S_ISVTX))
  {
    var s := ModeString(m);
    assert s[1] == PermChar(m, S_IRUSR, 'r') && s[2] == PermChar(m, S_IWUSR, 'w');
    assert s[3] == ExecChar(m, S_ISUID, S_IXUSR, 's', 'S');
    assert s[4] == PermChar(m, S_IRGRP, 'r') && s[5] == PermChar(m, S_IWGRP, 'w');
    assert s[6] == ExecChar(m, S_ISGID, S_IXGRP, 's', 'S');
    assert s[7] == PermChar(m, S_IROTH, 'r') && s[8] == PermChar(m, S_IWOTH, 'w');
    assert s[9] == ExecChar(m, S_ISVTX, S_IXOTH, 't', 'T');
    UserBits(m);
    GroupBits(m);
    OtherBits(m);
    DecodeParts(s, TypeOf(TypeChar(m)), m & (S_IRUSR | S_IWUSR | S_IXUSR | S_ISUID),
                m & (S_IRGRP | S_IWGRP | S_IXGRP | S_ISGID), m & (S_IROTH | S_IWOTH | S_IXOTH | S_ISVTX));
  }

  /** Reading the mode string back gives all twelve permission bits. */
  lemma ModeStringKeepsPermissions(m: Mode)
    ensures DecodeMode(ModeString(m)) & 0xFFF == m & 0xFFF
  {
    DecodeModeString(m);
    TypeBits(m);
  }

  /** Reading the mode string back gives the type of a file of known type:
      the mode string loses only the difference between regular files and
      types it has no letter for. */
  lemma ModeStringKeepsType(m: Mode)
    requires KnownType(m)
    ensures DecodeMode(ModeString(m)) & S_IFMT == m & S_IFMT
  {
    DecodeModeString(m);
    TypeBits(m);
  }

  /** encode_mode: ten characters and a NUL from `cp` on; the result is
      the position of the NUL. */
  method EncodeMode(mode: Mode, buf: array<char>, start: nat) returns (cp: nat)
    requires start + 11 <= buf.Length
    modifies buf
    ensures cp == start + 10
    ensures buf[start..cp] == ModeString(mode) && buf[cp] == '\0'
    ensures buf[..start] == old(buf[..start]) && buf[cp + 1..] == old(buf[cp + 1..])
  {
    var s := ModeString(mode) + ['\0'];
    forall k | 0 <= k < 11 {
      buf[start + k] := s[k];
    }
    cp := start + 10;
    assert forall k | 0 <= k < 10 :: buf[start + k] == s[k];
  }

  // =====================================================================
  // json_escape

  /** The characters json_escape puts a backslash before, as its inner
      loop scans them: from the last element of `echars` down to the
      first, the array's terminating NUL included. */
  const ECHARS: seq<char> := ['\\', '"', '\0']

  predicate NeedsEscape(c: char) {
    c == '\\' || c == '"'
  }

  /** What one character becomes. */
  function EscapeChar(c: char): (r: seq<char>)
    ensures NeedsEscape(c) ==> r == ['\\', c]
    ensures !NeedsEscape(c) ==> r == [c]
  {
    if NeedsEscape(c) then ['\\', c] else [c]
  }

  /** The escaped form of a string. */
  function Escape(s: seq<char>): seq<char> {
    FlatMap(EscapeChar, s)
  }

  /** The number of characters that get a backslash. */
  function CountEscaped(s: seq<char>): (k: nat)
    ensures k <= |s|
  {
    if s == [] then 0 else (if NeedsEscape(s[0]) then 1 else 0) + CountEscaped(s[1..])
  }

  /** Reading an escaped string back: a backslash stands for the character
      after it. */
  function Unescape(t: seq<char>): seq<char>
    decreases |t|
  {
    if t == [] then []
    else if t[0] == '\\' && |t| >= 2 then [t[1]] + Unescape(t[2..])
    else [t[0]] + Unescape(t[1..])
  }

  /** Escaping adds one character per escaped character, and nothing else. */
  lemma {:induction false} EscapeLength(s: seq<char>)
    ensures |Escape(s)| == |s| + CountEscaped(s)
    decreases |s|
  {
    if s != [] {
      EscapeLength(s[1..]);
    }
  }

  /** Escaping loses nothing: unescaping gives the string back. */
  lemma {:induction false} UnescapeEscape(s: seq<char>)
    ensures Unescape(Escape(s)) == s
    decreases |s|
  {
    if s != [] {
      var e := EscapeChar(s[0]);
      assert Escape(s) == e + Escape(s[1..]);
      UnescapeEscape(s[1..]);
      if NeedsEscape(s[0]) {
        assert (e + Escape(s[1..]))[2..] == Escape(s[1..]);
      } else {
        assert (e + Escape(s[1..]))[1..] == Escape(s[1..]);
      }
    }
  }

  /** No quote in the escaped string ends it: every quote is preceded by a
      backslash that is itself not escaped. Stated as: splitting the
      escaped string into units of one plain character or a backslash and
      the character it escapes leaves no unit that is a bare quote or a
      bare backslash. */
  predicate QuoteSafe(t: seq<char>)
    decreases |t|
  {
    if t == [] then true
    else if t[0] == '\\' then |t| >= 2 && QuoteSafe(t[2..])
    else t[0] != '"' && QuoteSafe(t[1..])
  }

  lemma {:induction false} EscapeQuoteSafe(s: seq<char>)
    ensures QuoteSafe(Escape(s))
    decreases |s|
  {
    if s != [] {
      var e := EscapeChar(s[0]);
      assert Escape(s) == e + Escape(s[1..]);
      EscapeQuoteSafe(s[1..]);
      if NeedsEscape(s[0]) {
        assert (e + Escape(s[1..]))[2..] == Escape(s[1..]);
      } else {
        assert (e + Escape(s[1..]))[1..] == Escape(s[1..]);
      }
    }
  }

  /** The inner loop of json_escape: k counts down from sizeof(echars)
      until the character matches echars[k-1]; nonzero means the
      character is escaped. */
  method EcharIndex(c: char) returns (k: nat)
    ensures k <= |ECHARS|
    ensures k != 0 <==> c in ECHARS
    ensures k != 0 ==> ECHARS[k - 1] == c
  {
    k := |ECHARS|;
    while k != 0 && c != ECHARS[k - 1]
      invariant k <= |ECHARS|
      invariant forall i :: k <= i < |ECHARS| ==> ECHARS[i] != c
    {
      k := k - 1;
    }
  }

  /** The size json_escape allocates for a string of n characters. */
  function AsWrittenAlloc(n: nat): nat {
    2 * n
  }

  /** Whether the escaped string and its NUL fit in that allocation. */
  predicate AsWrittenFits(s: seq<char>) {
    |Escape(s)| + 1 <= AsWrittenAlloc(|s|)
  }

  /** The allocation is too small exactly when every character is escaped,
      the empty string included: then the NUL is written one past the end. */
  lemma AsWrittenOverflows(s: seq<char>)
    ensures !AsWrittenFits(s) <==> CountEscaped(s) == |s|
  {
    EscapeLength(s);
  }

  lemma AsWrittenOverflowsOnEmpty()
    ensures !AsWrittenFits("")
  {
  }

  lemma AsWrittenOverflowsOnQuote()
    ensures !AsWrittenFits("\"")
  {
    assert Escape("\"") == "\\\"";
  }

  /** The allocation the escaped string and its NUL need: one more than
      twice the length. */
  function EscapeAlloc(n: nat): nat {
    2 * n + 1
  }

  lemma EscapeFits(s: seq<char>)
    ensures |Escape(s)| + 1 <= EscapeAlloc(|s|)
  {
    EscapeLength(s);
  }

  lemma EscapeSnoc(s: seq<char>, c: char)
    ensures Escape(s + [c]) == Escape(s) + EscapeChar(c)
  {
    FlatMapAppend(EscapeChar, s, [c]);
    assert [c][1..] == [];
  }

  /** json_escape with the allocation corrected to 2n + 1: NULL gives NULL;
      otherwise a fresh buffer holding the escaped string and a NUL. */
  method JsonEscape(str: Option<seq<char>>) returns (r: Option<array<char>>)
    ensures str.None? <==> r.None?
    ensures r.Some? ==> fresh(r.value)
    ensures r.Some? ==> r.value.Length == EscapeAlloc(|CStr(str.value)|)
    ensures r.Some? ==> var e := Escape(CStr(str.value));
                        |e| < r.value.Length && r.value[..|e|] == e && r.value[|e|] == '\0'
  {
    if str.None? {
      return None;
    }
    var s := CStr(str.value);
    var n := |s|;
    var estr := new char[EscapeAlloc(n)];
    var i, j := 0, 0;
    while i < n
      invariant 0 <= i <= n && j <= 2 * i
      invariant estr[..j] == Escape(s[..i])
    {
      var k := EcharIndex(s[i]);
      ghost var before := estr[..j];
      if k != 0 {
        estr[j] := '\\';
        j := j + 1;
      }
      estr[j] := s[i];
      assert estr[..j + 1] == before + EscapeChar(s[i]);
      EscapeSnoc(s[..i], s[i]);
      assert s[..i + 1] == s[..i] + [s[i]];
      i, j := i + 1, j + 1;
    }
    assert s[..n] == s;
    estr[j] := '\0';
    assert estr[..j] == Escape(s);
    r := Some(estr);
  }

  // =====================================================================
  // open_tag / close_tag: the nesting of the JSON output

  /** n spaces; none for n <= 0. */
  function Spaces(n: int): (r: seq<char>)
    ensures |r| == if n > 0 then n else 0
    ensures forall i :: 0 <= i < |r| ==> r[i] == ' '
    decreases n
  {
    if n <= 0 then [] else Spaces(n - 1) + [' ']
  }

  /** The bracket open_tag prints to enter depth c + 1: '[' when c is even,
      '{' when it is odd, with C's remainder (so depth 0 is an object). */
  function OpenChar(c: int): char {
    if CRem(c, 2) != 0 then '{' else '['
  }

  /** The bracket close_tag prints to leave depth c. */
  function CloseChar(c: int): char {
    if CRem(c, 2) != 0 then ']' else '}'
  }

  predicate Closes(o: char, c: char) {
    (o == '[' && c == ']') || (o == '{' && c == '}')
  }

  predicate IsOpen(c: char) {
    c == '[' || c == '{'
  }

  /** The bracket that enters a depth is the partner of the one that
      leaves it. */
  lemma BracketsMatch(d: int)
    ensures Closes(OpenChar(d), CloseChar(d + 1))
  {
    if d >= 0 {
      assert CRem(d, 2) == d % 2 && CRem(d + 1, 2) == (d + 1) % 2;
    } else if d == -1 {
      assert CRem(d, 2) == -1 && CRem(d + 1, 2) == 0;
    } else {
      assert CRem(d, 2) == -((-d) % 2) && CRem(d + 1, 2) == -((-d - 1) % 2);
    }
  }

  /** One bracket against the stack of open ones: an opening bracket is
      pushed, a closing one must close the top. */
  function Step(st: seq<char>, c: char): Option<seq<char>> {
    if IsOpen(c) then Some(st + [c])
    else if st != [] && Closes(st[|st| - 1], c) then Some(st[..|st| - 1])
    else None
  }

  /** The brackets still open after `evs`, or None when one was closed by
      the wrong partner or without being open. */
  function Nest(evs: seq<char>): Option<seq<char>>
    decreases |evs|
  {
    if evs == [] then Some([])
    else match Nest(evs[..|evs| - 1])
      case None => None
      case Some(st) => Step(st, evs[|evs| - 1])
  }

  lemma NestSnoc(evs: seq<char>, c: char)
    ensures Nest(evs + [c]) == if Nest(evs).None? then None else Step(Nest(evs).value, c)
  {
    assert (evs + [c])[..|evs|] == evs;
  }

  /** The brackets open while current_tag is c: one per depth up to c. */
  function Stack(c: int): (st: seq<char>)
    ensures |st| == if c >= 0 then c + 1 else 0
    decreases c
  {
    if c < 0 then [] else Stack(c - 1) + [OpenChar(c - 1)]
  }

  /** The brackets close_tag(level) prints from current_tag c. */
  function CloseBrackets(c: int, level: int): seq<char>
    decreases c - level + 1
  {
    if c < level then [] else [CloseChar(c)] + CloseBrackets(c - 1, level)
  }

  /** The brackets the opening loop of open_tag prints from c. */
  function OpenBrackets(c: int, level: int): seq<char>
    decreases level - c
  {
    if c >= level then [] else [OpenChar(c)] + OpenBrackets(c + 1, level)
  }

  /** The brackets open_tag(level) prints from current_tag c. */
  function TagBrackets(c: int, level: int): seq<char> {
    if c > level then CloseBrackets(c, level) + OpenBrackets(level - 1, level)
    else if c == level then ['}', '{']
    else OpenBrackets(c, level)
  }

  /** Closing down to a level >= 0 closes the open brackets in order. */
  lemma {:induction false} CloseKeepsNesting(evs: seq<char>, c: int, level: int)
    requires c >= -1 && level >= 0 && Nest(evs) == Some(Stack(c))
    ensures Nest(evs + CloseBrackets(c, level)) == Some(Stack(if c >= level then level - 1 else c))
    decreases c - level + 1
  {
    if c >= level {
      var x := CloseChar(c);
      NestSnoc(evs, x);
      BracketsMatch(c - 1);
      assert Stack(c) == Stack(c - 1) + [OpenChar(c - 1)];
      assert Nest(evs + [x]) == Some(Stack(c - 1));
      CloseKeepsNesting(evs + [x], c - 1, level);
      assert CloseBrackets(c, level) == [x] + CloseBrackets(c - 1, level);
      Assoc(evs, [x], CloseBrackets(c - 1, level));
    } else {
      assert evs + [] == evs;
    }
  }

  /** Opening up to a level pushes one bracket per depth. */
  lemma {:induction false} OpenKeepsNesting(evs: seq<char>, c: int, level: int)
    requires c >= -1 && Nest(evs) == Some(Stack(c))
    ensures Nest(evs + OpenBrackets(c, level)) == Some(Stack(if c < level then level else c))
    decreases level - c
  {
    if c < level {
      var x := OpenChar(c);
      NestSnoc(evs, x);
      assert IsOpen(x) && Stack(c + 1) == Stack(c) + [x];
      assert Nest(evs + [x]) == Some(Stack(c + 1));
      OpenKeepsNesting(evs + [x], c + 1, level);
      assert OpenBrackets(c, level) == [x] + OpenBrackets(c + 1, level);
      Assoc(evs, [x], OpenBrackets(c + 1, level));
    } else {
      assert evs + [] == evs;
    }
  }

  lemma ParityStep(c: int)
    requires c >= 0
    ensures CRem(c - 1, 2) != 0 <==> CRem(c, 2) == 0
  {
    if c == 0 {
      assert CRem(-1, 2) == -1;
    } else {
      assert CRem(c - 1, 2) == (c - 1) % 2 && CRem(c, 2) == c % 2;
    }
  }

  /** open_tag's sibling separator "},{" at the current level keeps the
      nesting right exactly when that level is even: at an odd level the
      open bracket is '[' and '}' does not close it. */
  lemma SiblingNesting(evs: seq<char>, c: int)
    requires c >= 0 && Nest(evs) == Some(Stack(c))
    ensures Nest(evs + ['}', '{']) == Some(Stack(c)) <==> CRem(c, 2) == 0
  {
    var st := Stack(c - 1);
    var top := OpenChar(c - 1);
    assert Stack(c) == st + [top];
    NestSnoc(evs, '}');
    NestSnoc(evs + ['}'], '{');
    assert evs + ['}'] + ['{'] == evs + ['}', '{'];
    ParityStep(c);
    if CRem(c, 2) == 0 {
      assert top == '{';
      assert (st + [top])[..|st|] == st;
      assert Nest(evs + ['}']) == Some(st);
    } else {
      assert top == '[';
      assert Nest(evs + ['}']) == None;
    }
  }

  /** open_tag(level), at a level >= 0 where the sibling separator can only
      be printed at an even level, leaves exactly the brackets for depths
      up to `level` open. */
  lemma TagKeepsNesting(evs: seq<char>, c: int, level: int)
    requires c >= -1 && level >= 0 && Nest(evs) == Some(Stack(c))
    requires c == level ==> CRem(level, 2) == 0
    ensures Nest(evs + TagBrackets(c, level)) == Some(Stack(level))
  {
    if c > level {
      CloseKeepsNesting(evs, c, level);
      OpenKeepsNesting(evs + CloseBrackets(c, level), level - 1, level);
      assert evs + TagBrackets(c, level) == (evs + CloseBrackets(c, level)) + OpenBrackets(level - 1, level);
    } else if c == level {
      SiblingNesting(evs, c);
    } else {
      OpenKeepsNesting(evs, c, level);
    }
  }

  /** The text close_tag(level) prints from current_tag c. */
  function CloseText(c: int, level: int): seq<char>
    decreases c - level + 1
  {
    if c < level then [] else ClosePiece(c) + CloseText(c - 1, level)
  }

  /** What close_tag prints to leave depth c. */
  function ClosePiece(c: int): seq<char> {
    "\n" + Spaces(c) + [CloseChar(c)]
  }

  /** The text the opening loop of open_tag prints from c. */
  function OpenText(c: int, level: int, tag: Option<seq<char>>): seq<char>
    decreases level - c
  {
    if c >= level then [] else OpenPiece(c, tag) + OpenText(c + 1, level, tag)
  }

  /** What open_tag prints to enter depth c + 1: the tag's name when it
      is given, then the bracket. */
  function OpenPiece(c: int, tag: Option<seq<char>>): seq<char> {
    (if tag.Some? then Spaces(c + 1) + TagName(tag.value) else []) + Spaces(c + 1) + [OpenChar(c), '\n']
  }

  function TagName(tag: seq<char>): seq<char> {
    "\"" + CStr(tag) + "\":\n"
  }

  /** The separator between siblings at depth c. */
  function SiblingText(c: int): seq<char> {
    "\n" + Spaces(c) + "},\n" + Spaces(c) + "{\n"
  }

  /** The text open_tag(level, tag) prints from current_tag c. */
  function OpenTagText(c: int, level: int, tag: Option<seq<char>>): seq<char> {
    if c > level then CloseText(c, level) + ",\n" + OpenText(level - 1, level, tag)
    else if c == level then SiblingText(c)
    else OpenText(c, level, tag)
  }

  // =====================================================================
  // json_backup: the " (deletable)" marker

  /** pat occurs in s at i. */
  predicate Occurs(s: seq<char>, pat: seq<char>, i: nat) {
    i + |pat| <= |s| && s[i..i + |pat|] == pat
  }

  /** strstr from position i: the first occurrence at or after i. */
  function FindFrom(s: seq<char>, pat: seq<char>, i: nat): (r: Option<nat>)
    ensures r.Some? ==> i <= r.value && Occurs(s, pat, r.value)
    ensures r.Some? ==> forall j :: i <= j < r.value ==> !Occurs(s, pat, j)
    ensures r.None? ==> forall j :: i <= j ==> !Occurs(s, pat, j)
    decreases |s| - i
  {
    if i + |pat| > |s| then None
    else if s[i..i + |pat|] == pat then Some(i)
    else FindFrom(s, pat, i + 1)
  }

  /** strstr */
  function Strstr(s: seq<char>, pat: seq<char>): Option<nat> {
    FindFrom(s, pat, 0)
  }

  /** The marker the server appends to the timestamp of a backup that may
      be deleted. */
  const DELETABLE: seq<char> := " (deletable)"

  /** What json_backup makes of the record: the timestamp cut at the
      first marker, and whether there was one. */
  function SplitDeletable(statbuf: seq<char>): (r: (seq<char>, bool))
    ensures r.0 <= CStr(statbuf)
    ensures r.1 <==> exists j :: Occurs(CStr(statbuf), DELETABLE, j)
    ensures r.1 ==> Occurs(CStr(statbuf), DELETABLE, |r.0|)
  {
    var s := CStr(statbuf);
    match Strstr(s, DELETABLE)
    case None => (s, false)
    case Some(i) => (s[..i], true)
  }

  /** Only the first character of the marker is a space, so an occurrence
      cannot start inside the text before a marker and run into it. */
  lemma MarkerSpace(k: nat)
    requires 0 < k < |DELETABLE|
    ensures DELETABLE[k] != ' '
  {
  }

  /** Text before an appended marker holds no occurrence of the marker,
      not even one running into the appended one. */
  lemma NoEarlierMarker(ts: seq<char>, rest: seq<char>, j: nat)
    requires forall i :: !Occurs(ts, DELETABLE, i)
    requires j < |ts|
    ensures !Occurs(ts + DELETABLE + rest, DELETABLE, j)
  {
    var s := ts + DELETABLE + rest;
    if Occurs(s, DELETABLE, j) {
      if j + |DELETABLE| <= |ts| {
        assert ts[j..j + |DELETABLE|] == s[j..j + |DELETABLE|];
        assert Occurs(ts, DELETABLE, j);
      } else {
        var k := |ts| - j;
        assert s[j..j + |DELETABLE|][k] == s[|ts|] == ' ';
        MarkerSpace(k);
      }
    }
  }

  /** A timestamp without the marker, with the marker appended (and
      anything after it), is read back as that timestamp and deletable;
      without the marker, as itself and not deletable. */
  lemma DeletableRoundTrip(ts: seq<char>, deletable: bool, rest: seq<char>)
    requires '\0' !in ts && '\0' !in rest
    requires forall j :: !Occurs(ts, DELETABLE, j)
    ensures SplitDeletable(if deletable then ts + DELETABLE + rest else ts) == (ts, deletable)
  {
    if deletable {
      var s := ts + DELETABLE + rest;
      assert '\0' !in s by {
        assert '\0' !in DELETABLE;
        assert forall c :: c in s ==> c in ts || c in DELETABLE || c in rest;
      }
      NoNulCStr(s);
      assert Occurs(s, DELETABLE, |ts|) by {
        assert s[|ts|..|ts| + |DELETABLE|] == DELETABLE;
      }
      var r := Strstr(s, DELETABLE);
      assert r.Some?;
      if r.value < |ts| {
        NoEarlierMarker(ts, rest, r.value);
      }
      assert r.value == |ts|;
      assert s[..|ts|] == ts;
    } else {
      NoNulCStr(ts);
    }
  }

  /** The parts of the configuration the listing client reads; None
      stands for a NULL pointer. */
  datatype ListConf = ListConf(backup: Option<seq<char>>, browsedir: Option<seq<char>>, regex: Option<seq<char>>)

  /** What "%s" prints for a pointer the code replaces by "" when NULL. */
  function OrEmpty(s: Option<seq<char>>): (r: seq<char>)
    ensures s.None? ==> r == []
    ensures s.Some? ==> r == CStr(s.value)
  {
    if s.Some? then CStr(s.value) else []
  }

  /** The two lines json_backup prints for every backup. */
  function BackupLines(ts: seq<char>, deletable: bool): seq<char> {
    "   \"timestamp\": \"" + ts + "\",\n"
    + "   \"deletable\": \"" + (if deletable then "true" else "false") + "\""
  }

  /** The lines json_backup adds when a backup was named. */
  function ConfLines(conf: ListConf): seq<char> {
    ",\n"
    + "   \"directory\": \"" + OrEmpty(conf.browsedir) + "\",\n"
    + "   \"regex\": \"" + OrEmpty(conf.regex) + "\",\n"
  }

  lemma Assoc<T>(a: seq<T>, b: seq<T>, c: seq<T>)
    ensures (a + b) + c == a + (b + c)
  {
  }

  /** The JSON output of the listing client: the static current_tag, the
      text printed, and the brackets among it in order. */
  class JsonOut {
    var currentTag: int
    var out: seq<char>
    ghost var brackets: seq<char>

    /** Every bracket printed closed its partner, and the ones still open
        are those of the depths up to current_tag. */
    ghost predicate Valid()
      reads this
    {
      currentTag >= -1 && Nest(brackets) == Some(Stack(currentTag))
    }

    /** The state at program start: current_tag is -1 and nothing is
        printed. */
    constructor ()
      ensures currentTag == -1 && out == [] && brackets == []
      ensures Valid()
    {
      currentTag := -1;
      out := [];
      brackets := [];
    }

    /** print_spaces */
    method PrintSpaces(count: int)
      modifies this`out
      ensures out == old(out) + Spaces(count)
    {
      var i := 0;
      ghost var o := out;
      while i < count
        invariant (count > 0 ==> 0 <= i <= count) && (count <= 0 ==> i == 0)
        invariant out == o + Spaces(i)
      {
        out := out + " ";
        i := i + 1;
      }
    }

    /** close_tag: leave every depth from current_tag down to `level`. */
    method CloseTag(level: int)
      modifies this`currentTag, this`out, this`brackets
      ensures currentTag == if old(currentTag) >= level then level - 1 else old(currentTag)
      ensures out == old(out) + CloseText(old(currentTag), level)
      ensures brackets == old(brackets) + CloseBrackets(old(currentTag), level)
      ensures old(Valid()) && level >= 0 ==> Valid()
    {
      ghost var c0, o, b0 := currentTag, out, brackets;
      while currentTag >= level
        invariant currentTag <= c0 && (c0 >= level ==> currentTag >= level - 1)
        invariant c0 < level ==> currentTag == c0
        invariant out + CloseText(currentTag, level) == o + CloseText(c0, level)
        invariant brackets + CloseBrackets(currentTag, level) == b0 + CloseBrackets(c0, level)
        decreases currentTag - level
      {
        ghost var ct, pre, preB := currentTag, out, brackets;
        CloseOne();
        Assoc(pre, ClosePiece(ct), CloseText(ct - 1, level));
        Assoc(preB, [CloseChar(ct)], CloseBrackets(ct - 1, level));
      }
      if c0 >= -1 && level >= 0 && Nest(b0) == Some(Stack(c0)) {
        CloseKeepsNesting(b0, c0, level);
      }
    }

    /** The loop of open_tag: enter each depth from current_tag up to
        `level`. */
    method OpenLevels(level: int, tag: Option<seq<char>>)
      modifies this`currentTag, this`out, this`brackets
      ensures currentTag == if old(currentTag) < level then level else old(currentTag)
      ensures out == old(out) + OpenText(old(currentTag), level, tag)
      ensures brackets == old(brackets) + OpenBrackets(old(currentTag), level)
    {
      ghost var c1, o1, b1 := currentTag, out, brackets;
      while currentTag < level
        invariant c1 <= currentTag && (c1 < level ==> currentTag <= level)
        invariant c1 >= level ==> currentTag == c1
        invariant out + OpenText(currentTag, level, tag) == o1 + OpenText(c1, level, tag)
        invariant brackets + OpenBrackets(currentTag, level) == b1 + OpenBrackets(c1, level)
        decreases level - currentTag
      {
        ghost var ct, pre, preB := currentTag, out, brackets;
        OpenOne(tag);
        Assoc(pre, OpenPiece(ct, tag), OpenText(ct + 1, level, tag));
        Assoc(preB, [OpenChar(ct)], OpenBrackets(ct + 1, level));
      }
    }

    /** One turn of close_tag's loop. */
    method CloseOne()
      modifies this`currentTag, this`out, this`brackets
      ensures currentTag == old(currentTag) - 1
      ensures out == old(out) + ClosePiece(old(currentTag))
      ensures brackets == old(brackets) + [CloseChar(old(currentTag))]
    {
      ghost var pre := out;
      out := out + "\n";
      PrintSpaces(currentTag);
      out := out + [CloseChar(currentTag)];
      brackets := brackets + [CloseChar(currentTag)];
      Assoc(pre, "\n", Spaces(currentTag));
      Assoc(pre, "\n" + Spaces(currentTag), [CloseChar(currentTag)]);
      currentTag := currentTag - 1;
    }

    /** One turn of open_tag's loop. */
    method OpenOne(tag: Option<seq<char>>)
      modifies this`currentTag, this`out, this`brackets
      ensures currentTag == old(currentTag) + 1
      ensures out == old(out) + OpenPiece(old(currentTag), tag)
      ensures brackets == old(brackets) + [OpenChar(old(currentTag))]
    {
      ghost var pre, ct := out, currentTag;
      ghost var name := if tag.Some? then Spaces(ct + 1) + TagName(tag.value) else [];
      if tag.Some? {
        PrintSpaces(currentTag + 1);
        out := out + TagName(tag.value);
        Assoc(pre, Spaces(ct + 1), TagName(tag.value));
      }
      assert out == pre + name;
      ghost var mid := out;
      var bracket := [OpenChar(currentTag), '\n'];
      PrintSpaces(currentTag + 1);
      out := out + bracket;
      brackets := brackets + [OpenChar(currentTag)];
      currentTag := currentTag + 1;
      Assoc(mid, Spaces(ct + 1), bracket);
      Assoc(pre, name, Spaces(ct + 1) + bracket);
      Assoc(name, Spaces(ct + 1), bracket);
    }

    /** The separator open_tag prints between two siblings at the
        current level. */
    method Sibling()
      modifies this`out, this`brackets
      ensures out == old(out) + SiblingText(currentTag)
      ensures brackets == old(brackets) + ['}', '{']
    {
      ghost var o := out;
      var a, c, e := "\n", "},\n", "{\n";
      ghost var b := Spaces(currentTag);
      out := out + a;
      PrintSpaces(currentTag);
      out := out + c;
      PrintSpaces(currentTag);
      out := out + e;
      brackets := brackets + ['}', '{'];
      Assoc(o, a, b);
      Assoc(o, a + b, c);
      Assoc(o, a + b + c, b);
      Assoc(o, a + b + c + b, e);
    }

    /** open_tag: close deeper levels (and separate with a comma), or
        separate a sibling at this level, or open the levels down to this
        one, printing `tag`'s name before each when it is given. */
    method OpenTag(level: int, tag: Option<seq<char>>)
      modifies this`currentTag, this`out, this`brackets
      ensures currentTag == level
      ensures out == old(out) + OpenTagText(old(currentTag), level, tag)
      ensures brackets == old(brackets) + TagBrackets(old(currentTag), level)
      ensures old(Valid()) && level >= 0 && (old(currentTag) == level ==> CRem(level, 2) == 0) ==> Valid()
    {
      ghost var c0, o, b0 := currentTag, out, brackets;
      if currentTag > level {
        CloseTag(level);
        out := out + ",\n";
      }
      if currentTag == level {
        Sibling();
      }
      OpenLevels(level, tag);
      if c0 > level {
        Assoc(o, CloseText(c0, level), ",\n");
        Assoc(o, CloseText(c0, level) + ",\n", OpenText(level - 1, level, tag));
        Assoc(b0, CloseBrackets(c0, level), OpenBrackets(level - 1, level));
        assert OpenTagText(c0, level, tag) == CloseText(c0, level) + ",\n" + OpenText(level - 1, level, tag);
        assert TagBrackets(c0, level) == CloseBrackets(c0, level) + OpenBrackets(level - 1, level);
      } else if c0 == level {
        assert OpenText(level, level, tag) == [] && OpenBrackets(level, level) == [];
        assert out == o + SiblingText(level);
        assert brackets == b0 + ['}', '{'];
        assert OpenTagText(c0, level, tag) == SiblingText(level) && TagBrackets(c0, level) == ['}', '{'];
      } else {
        assert OpenTagText(c0, level, tag) == OpenText(c0, level, tag);
        assert TagBrackets(c0, level) == OpenBrackets(c0, level);
      }
      if c0 >= -1 && level >= 0 && Nest(b0) == Some(Stack(c0)) && (c0 == level ==> CRem(level, 2) == 0) {
        TagKeepsNesting(b0, c0, level);
      }
    }

    /** json_backup: a new backup object at depth 2 with its timestamp
        (the marker cut off) and whether it is deletable; when a backup was
        named, the directory and regex and an "items" array at depth 3. */
    method JsonBackup(statbuf: seq<char>, conf: ListConf)
      modifies this`currentTag, this`out, this`brackets
      ensures currentTag == if conf.backup.Some? then 3 else 2
      ensures var (ts, del) := SplitDeletable(statbuf);
              out == old(out) + OpenTagText(old(currentTag), 2, None) + BackupLines(ts, del)
                     + (if conf.backup.Some? then ConfLines(conf) + OpenTagText(2, 3, Some("items")) else [])
      ensures brackets == old(brackets) + TagBrackets(old(currentTag), 2)
                          + (if conf.backup.Some? then TagBrackets(2, 3) else [])
      ensures old(Valid()) ==> Valid()
    {
      var s := CStr(statbuf);
      var cp := Strstr(s, DELETABLE);
      var ts := if cp.Some? then s[..cp.value] else s;
      assert CRem(2, 2) == 0;
      OpenTag(2, None);
      out := out + BackupLines(ts, cp.Some?);
      if conf.backup.Some? {
        ghost var o2 := out;
        out := out + ConfLines(conf);
        OpenTag(3, Some("items"));
        Assoc(o2, ConfLines(conf), OpenTagText(2, 3, Some("items")));
      } else {
        assert out + [] == out && brackets + [] == brackets;
      }
    }
  }

  // =====================================================================
  // do_list_client

  /** The request do_list_client sends, as snprintf leaves it in its
      512-byte buffer: "listb <backup>:<browsedir>" when a directory is
      browsed, "list <backup>:<regex>" otherwise. */
  function ListRequest(conf: ListConf): (r: seq<char>)
    ensures |r| <= 511
  {
    if conf.browsedir.Some? then
      Truncate("listb " + OrEmpty(conf.backup) + ":" + CStr(conf.browsedir.value), 511)
    else
      Truncate("list " + OrEmpty(conf.backup) + ":" + OrEmpty(conf.regex), 511)
  }

  /** The first colon in s, or None. */
  function ColonAt(s: seq<char>): (r: Option<nat>)
    ensures r.Some? ==> r.value < |s| && s[r.value] == ':' && ':' !in s[..r.value]
    ensures r.None? ==> ':' !in s
  {
    if s == [] then None
    else if s[0] == ':' then Some(0)
    else match ColonAt(s[1..])
      case None => None
      case Some(k) => assert s[..k + 1] == [s[0]] + s[1..][..k]; Some(k + 1)
  }

  /** Reading a request back, as the server does: the browse flag, the
      backup and what follows the first colon. */
  function ParseRequest(msg: seq<char>): Option<(bool, seq<char>, seq<char>)> {
    var browse := |msg| >= 6 && msg[..6] == "listb ";
    var plain := |msg| >= 5 && msg[..5] == "list ";
    if !browse && !plain then None
    else
      var body := if browse then msg[6..] else msg[5..];
      match ColonAt(body)
      case None => None
      case Some(k) => Some((browse, body[..k], body[k + 1..]))
  }

  /** The first colon of b + ":" + arg is the one after b when b has none. */
  lemma ColonAfter(b: seq<char>, arg: seq<char>)
    requires ':' !in b
    ensures ColonAt(b + ":" + arg) == Some(|b|)
  {
    var body := b + ":" + arg;
    assert body[|b|] == ':' && body[..|b|] == b;
  }

  /** A request built from a prefix, a colon-free backup and an argument
      parses back into them. */
  lemma ParseBuilt(browse: bool, b: seq<char>, arg: seq<char>)
    requires ':' !in b
    ensures ParseRequest((if browse then "listb " else "list ") + b + ":" + arg) == Some((browse, b, arg))
  {
    var body := b + ":" + arg;
    var msg := (if browse then "listb " else "list ") + b + ":" + arg;
    ColonAfter(b, arg);
    assert body[..|b|] == b && body[|b| + 1..] == arg;
    if browse {
      assert msg[..6] == "listb " && msg[6..] == body;
    } else {
      assert msg[..5] == "list " && msg[5..] == body;
      assert !(|msg| >= 6 && msg[..6] == "listb ") by {
        if |msg| >= 6 { assert msg[4] == ' '; }
      }
    }
  }

  /** A request that fits its buffer is read back as what it was built
      from, provided the backup name holds no colon. */
  lemma ListRequestRoundTrip(conf: ListConf)
    requires ':' !in OrEmpty(conf.backup)
    requires |ListRequestText(conf)| <= 511
    ensures ParseRequest(ListRequest(conf))
            == Some((conf.browsedir.Some?, OrEmpty(conf.backup),
                     if conf.browsedir.Some? then CStr(conf.browsedir.value) else OrEmpty(conf.regex)))
  {
    var arg := if conf.browsedir.Some? then CStr(conf.browsedir.value) else OrEmpty(conf.regex);
    assert ListRequest(conf) == ListRequestText(conf);
    ParseBuilt(conf.browsedir.Some?, OrEmpty(conf.backup), arg);
  }

  /** The request before truncation. */
  function ListRequestText(conf: ListConf): seq<char> {
    if conf.browsedir.Some? then "listb " + OrEmpty(conf.backup) + ":" + CStr(conf.browsedir.value)
    else "list " + OrEmpty(conf.backup) + ":" + OrEmpty(conf.regex)
  }

  /** The entry kinds list_item shows without a link. */
  predicate Listable(c: Cmd) {
    c == CMD_DIRECTORY || c == CMD_FILE || c == CMD_ENC_FILE || c == CMD_EFS_FILE || c == CMD_SPECIAL
  }

  /** What the listing loop hands on for display: a backup's timestamp
      record (to json_backup or the "Backup:" line), an entry with its
      name, the link target for links, and the attributes, or an entry it
      reports as unlistable. */
  datatype Listed =
    | Backup(statbuf: seq<char>)
    | Item(cmd: Cmd, name: seq<char>, link: Option<seq<char>>, stat: seq<char>)
    | Unlistable(cmd: Cmd, name: seq<char>, stat: seq<char>)

  /** One turn of the loop: what it hands on, where the reading stands,
      the return code, and whether the loop stops. */
  datatype Turn = Turn(shown: seq<Listed>, next: nat, ret: int, stop: bool)

  function ListTurn(recs: seq<IoBuf>, pos: nat, ret: int): (t: Turn)
    requires pos <= |recs|
    ensures t.next <= |recs|
    ensures !t.stop ==> t.next > pos
    ensures t.ret == ret || t.ret == -1
  {
    if pos == |recs| then Turn([], pos, ret, true)
    else
      var r := recs[pos];
      if r.cmd == CMD_TIMESTAMP then Turn([Backup(r.buf)], pos + 1, ret, false)
      else if r.cmd == CMD_DATAPTH then Turn([], pos + 1, ret, false)
      else if r.cmd != CMD_STAT then Turn([], pos + 1, -1, true)
      else if pos + 1 == |recs| then Turn([], pos + 1, -1, true)
      else
        var f := recs[pos + 1];
        if Listable(f.cmd) then Turn([Item(f.cmd, f.buf, None, r.buf)], pos + 2, ret, false)
        else if IsLinkCmd(f.cmd) then
          if pos + 2 == |recs| then Turn([], pos + 2, -1, false)
          else if recs[pos + 2].cmd != f.cmd then Turn([], pos + 3, -1, false)
          else Turn([Item(f.cmd, f.buf, Some(recs[pos + 2].buf), r.buf)], pos + 3, ret, false)
        else Turn([Unlistable(f.cmd, f.buf, r.buf)], pos + 2, ret, false)
  }

  /** The loop of do_list_client from position pos with return code ret:
      everything handed on for display, and the final return code. */
  function ListLoop(recs: seq<IoBuf>, pos: nat, ret: int): (r: (seq<Listed>, int))
    requires pos <= |recs|
    ensures r.1 == ret || r.1 == -1
    decreases |recs| - pos
  {
    var t := ListTurn(recs, pos, ret);
    if t.stop then (t.shown, t.ret)
    else
      var rest := ListLoop(recs, t.next, t.ret);
      (t.shown + rest.0, rest.1)
  }

  /** The records a server sends for what is to be listed. */
  function ListRecords(l: Listed): seq<IoBuf> {
    match l
    case Backup(b) => [IoBuf(CMD_TIMESTAMP, b)]
    case Item(c, n, None, st) => [IoBuf(CMD_STAT, st), IoBuf(c, n)]
    case Item(c, n, Some(t), st) => [IoBuf(CMD_STAT, st), IoBuf(c, n), IoBuf(c, t)]
    case Unlistable(c, n, st) => [IoBuf(CMD_STAT, st), IoBuf(c, n)]
  }

  /** Items carry a link exactly when they are links, and unlistable
      entries are neither listable nor links. */
  predicate WellFormedListed(l: Listed) {
    match l
    case Backup(_) => true
    case Item(c, _, link, _) => if link.Some? then IsLinkCmd(c) else Listable(c)
    case Unlistable(c, _, _) => !Listable(c) && !IsLinkCmd(c)
  }

  /** Every element of a listing is well formed. */
  predicate AllWellFormedListed(ls: seq<Listed>) {
    forall i :: 0 <= i < |ls| ==> WellFormedListed(ls[i])
  }

  lemma SliceAt(recs: seq<IoBuf>, pos: nat, rs: seq<IoBuf>, k: nat)
    requires pos + |rs| <= |recs| && recs[pos..pos + |rs|] == rs && k < |rs|
    ensures recs[pos + k] == rs[k]
  {
    assert recs[pos..pos + |rs|][k] == recs[pos + k];
  }

  lemma ListTurnOne(recs: seq<IoBuf>, pos: nat, l: Listed)
    requires WellFormedListed(l)
    requires pos + |ListRecords(l)| <= |recs| && recs[pos..pos + |ListRecords(l)|] == ListRecords(l)
    ensures ListTurn(recs, pos, 0) == Turn([l], pos + |ListRecords(l)|, 0, false)
  {
    var rs := ListRecords(l);
    SliceAt(recs, pos, rs, 0);
    if |rs| > 1 {
      SliceAt(recs, pos, rs, 1);
    }
    if |rs| > 2 {
      SliceAt(recs, pos, rs, 2);
    }
  }

  /** What a server sends for a well-formed listing is listed as it was,
      and the loop ends with 0 when the records run out. */
  lemma {:induction false} ListLoopRoundTrip(recs: seq<IoBuf>, pos: nat, ls: seq<Listed>)
    requires AllWellFormedListed(ls)
    requires pos <= |recs| && recs[pos..] == FlatMap(ListRecords, ls)
    ensures ListLoop(recs, pos, 0).0 == ls && ListLoop(recs, pos, 0).1 == 0
    decreases |ls|
  {
    if ls == [] {
      assert |recs[pos..]| == 0;
    } else {
      var n := RoundTripTurn(recs, pos, ls);
      ListLoopRoundTrip(recs, pos + n, ls[1..]);
      assert [ls[0]] + ls[1..] == ls;
    }
  }

  /** The records of a listing are those of its first element followed by
      those of the rest. */
  lemma RoundTripSplit(recs: seq<IoBuf>, pos: nat, ls: seq<Listed>)
    requires ls != [] && AllWellFormedListed(ls)
    requires pos <= |recs| && recs[pos..] == FlatMap(ListRecords, ls)
    ensures var rs := ListRecords(ls[0]);
            pos + |rs| <= |recs| && recs[pos..pos + |rs|] == rs
            && recs[pos + |rs|..] == FlatMap(ListRecords, ls[1..])
    ensures WellFormedListed(ls[0]) && AllWellFormedListed(ls[1..])
  {
    var rest := ls[1..];
    assert FlatMap(ListRecords, ls) == ListRecords(ls[0]) + FlatMap(ListRecords, rest);
    forall i | 0 <= i < |rest| ensures WellFormedListed(rest[i]) {
      assert rest[i] == ls[i + 1];
    }
    SuffixSplit(recs, pos, ListRecords(ls[0]), FlatMap(ListRecords, rest));
  }

  /** The first turn over a well-formed listing shows its first element,
      and the records of the rest follow. */
  lemma RoundTripTurn(recs: seq<IoBuf>, pos: nat, ls: seq<Listed>) returns (n: nat)
    requires ls != [] && AllWellFormedListed(ls)
    requires pos <= |recs| && recs[pos..] == FlatMap(ListRecords, ls)
    ensures pos + n <= |recs|
    ensures ListLoop(recs, pos, 0).0 == [ls[0]] + ListLoop(recs, pos + n, 0).0
    ensures ListLoop(recs, pos, 0).1 == ListLoop(recs, pos + n, 0).1
    ensures AllWellFormedListed(ls[1..]) && recs[pos + n..] == FlatMap(ListRecords, ls[1..])
  {
    RoundTripSplit(recs, pos, ls);
    ListTurnOne(recs, pos, ls[0]);
    n := |ListRecords(ls[0])|;
    ListLoopStep(recs, pos, 0);
  }

  lemma SuffixSplit(recs: seq<IoBuf>, pos: nat, rs: seq<IoBuf>, more: seq<IoBuf>)
    requires pos <= |recs| && recs[pos..] == rs + more
    ensures pos + |rs| <= |recs|
    ensures recs[pos..pos + |rs|] == rs && recs[pos + |rs|..] == more
  {
    assert recs[pos..pos + |rs|] == recs[pos..][..|rs|];
    assert recs[pos + |rs|..] == recs[pos..][|rs|..];
  }

  /** Once the loop has failed, it ends with -1 whatever follows. */
  lemma {:induction false} ListLoopFailureSticks(recs: seq<IoBuf>, pos: nat)
    requires pos <= |recs|
    ensures ListLoop(recs, pos, -1).1 == -1
    decreases |recs| - pos
  {
    var t := ListTurn(recs, pos, -1);
    if !t.stop {
      ListLoopFailureSticks(recs, t.next);
    }
  }

  /** One turn of the loop, as the loop function takes it. */
  lemma ListLoopStep(recs: seq<IoBuf>, pos: nat, ret: int)
    requires pos <= |recs|
    ensures var t := ListTurn(recs, pos, ret);
            t.stop ==> ListLoop(recs, pos, ret) == (t.shown, t.ret)
    ensures var t := ListTurn(recs, pos, ret);
            !t.stop ==> ListLoop(recs, pos, ret).0 == t.shown + ListLoop(recs, t.next, t.ret).0
                        && ListLoop(recs, pos, ret).1 == ListLoop(recs, t.next, t.ret).1
  {
  }

  /** The JSON output keeps its nesting and sits inside the "backups"
      array or deeper. */
  ghost predicate InListing(jout: JsonOut)
    reads jout
  {
    jout.Valid() && 1 <= jout.currentTag <= 4
  }

  /** One turn of the loop of do_list_client. In JSON mode a backup opens
      its object through json_backup and every item opens its own object
      at depth 4 (the fields list_item prints are not modelled). */
  method ListOnce(asfd: Asfd, conf: ListConf, json: bool, jout: JsonOut, ret: int)
    returns (shown: seq<Listed>, ret': int, stop: bool)
    requires asfd.Valid()
    modifies asfd`inPos, jout`currentTag, jout`out, jout`brackets
    ensures asfd.Valid()
    ensures ListTurn(asfd.incoming, old(asfd.inPos), ret) == Turn(shown, asfd.inPos, ret', stop)
    ensures json && old(InListing(jout)) ==> InListing(jout)
    ensures !json ==> unchanged(jout)
  {
    ghost var pos := asfd.inPos;
    ghost var t := ListTurn(asfd.incoming, pos, ret);
    shown, ret', stop := [], ret, false;
    var r := asfd.Read();
    if r.Fail? {
      stop := true;
      return;
    }
    var rec := r.value;
    if rec.cmd == CMD_TIMESTAMP {
      if json {
        jout.JsonBackup(rec.buf, conf);
      }
      shown := [Backup(rec.buf)];
      return;
    } else if rec.cmd == CMD_DATAPTH {
      return;
    } else if rec.cmd != CMD_STAT {
      ret', stop := -1, true;
      return;
    }
    var f := asfd.Read();
    if f.Fail? {
      ret', stop := -1, true;
      return;
    }
    var fcmd := f.value.cmd;
    if Listable(fcmd) {
      if json {
        jout.OpenTag(4, None);
      }
      shown := [Item(fcmd, f.value.buf, None, rec.buf)];
    } else if IsLinkCmd(fcmd) {
      var l := asfd.Read();
      if l.Fail? || l.value.cmd != fcmd {
        ret' := -1;
      } else {
        if json {
          jout.OpenTag(4, None);
        }
        shown := [Item(fcmd, f.value.buf, Some(l.value.buf), rec.buf)];
      }
    } else {
      shown := [Unlistable(fcmd, f.value.buf, rec.buf)];
    }
  }

  /** The loop of do_list_client: turns until one stops it. */
  method ReadListing(asfd: Asfd, conf: ListConf, json: bool, jout: JsonOut)
    returns (ret: int, listed: seq<Listed>)
    requires asfd.Valid()
    modifies asfd`inPos, jout`currentTag, jout`out, jout`brackets
    ensures asfd.Valid()
    ensures listed == ListLoop(asfd.incoming, old(asfd.inPos), 0).0
    ensures ret == ListLoop(asfd.incoming, old(asfd.inPos), 0).1
    ensures json && old(InListing(jout)) ==> InListing(jout)
    ensures !json ==> unchanged(jout)
  {
    ghost var total := ListLoop(asfd.incoming, asfd.inPos, 0);
    ghost var v0 := InListing(jout);
    ret, listed := 0, [];
    var stop := false;
    while !stop
      invariant asfd.Valid()
      invariant !stop ==> listed + ListLoop(asfd.incoming, asfd.inPos, ret).0 == total.0
      invariant !stop ==> ListLoop(asfd.incoming, asfd.inPos, ret).1 == total.1
      invariant stop ==> listed == total.0 && ret == total.1
      invariant json && v0 ==> InListing(jout)
      invariant !json ==> unchanged(jout)
      decreases |asfd.incoming| - asfd.inPos, !stop
    {
      ghost var pos, ret0 := asfd.inPos, ret;
      var shown;
      shown, ret, stop := ListOnce(asfd, conf, json, jout, ret);
      ListLoopStep(asfd.incoming, pos, ret0);
      Assoc(listed, shown, ListLoop(asfd.incoming, asfd.inPos, ret).0);
      listed := listed + shown;
    }
  }

  /** What do_list_client does before its loop went right: the request
      was written and the server answered "ok". */
  predicate Accepted(incoming: seq<IoBuf>, pos: nat, room: nat) {
    room > 0 && pos < |incoming| && incoming[pos].cmd == CMD_GEN && StrEq(incoming[pos].buf, "ok")
  }

  /** What do_list_client hands on for display and returns, for a channel
      that delivers `incoming` from pos on and has room for `room` writes. */
  function ListClient(incoming: seq<IoBuf>, pos: nat, room: nat): (r: (seq<Listed>, int))
    requires pos <= |incoming|
    ensures !Accepted(incoming, pos, room) ==> r == ([], -1)
    ensures r.1 == 0 || r.1 == -1
  {
    if !Accepted(incoming, pos, room) then ([], -1) else ListLoop(incoming, pos + 1, 0)
  }

  /** do_list_client: send the request, expect "ok", then read records
      until the channel ends or a record is out of place. In JSON mode the
      output opens the top object and the "backups" array first and closes
      everything at the end. The server's answer to a failed request is
      read by async_read_expect, which is taken to fail unless the next
      record is the GEN record "ok". */
  method DoListClient(asfd: Asfd, conf: ListConf, json: bool, jout: JsonOut)
    returns (ret: int, listed: seq<Listed>)
    requires asfd.Valid()
    modifies asfd`inPos, asfd`sent, asfd`room, jout`currentTag, jout`out, jout`brackets
    ensures asfd.Valid()
    ensures asfd.sent == old(asfd.sent) + Take([IoBuf(CMD_GEN, ListRequest(conf))], old(asfd.room))
    ensures (listed, ret) == ListClient(asfd.incoming, old(asfd.inPos), old(asfd.room))
    ensures json && old(jout.Valid()) ==> jout.Valid()
    ensures json && old(jout.Valid()) && Accepted(asfd.incoming, old(asfd.inPos), old(asfd.room))
            ==> jout.currentTag == -1
    ensures !json ==> unchanged(jout)
  {
    ghost var pos0, room0 := asfd.inPos, asfd.room;
    var ok := asfd.Write(IoBuf(CMD_GEN, ListRequest(conf)));
    if !ok {
      return -1, [];
    }
    var r := asfd.Read();
    if r.Fail? || r.value.cmd != CMD_GEN || !StrEq(r.value.buf, "ok") {
      return -1, [];
    }
    assert Accepted(asfd.incoming, pos0, room0);
    if json {
      jout.OpenTag(0, None);
      jout.OpenTag(1, Some("backups"));
    }
    ret, listed := ReadListing(asfd, conf, json, jout);
    if json {
      jout.CloseTag(0);
    }
  }

  /** The time ls_to_buf shows: the later of the change and modification
      times. */
  function TimeShown(ctime: int, mtime: int): (t: int)
    ensures t >= ctime && t >= mtime
    ensures t == ctime || t == mtime
  {
    if ctime > mtime then ctime else mtime
  }
}
