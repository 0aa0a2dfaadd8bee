/** The initial file system: an archive in the New ASCII Format of cpio(5), and the search for a file in it. */
module Cpio {
  import opened Bytes

  const HEADER_SIZE: nat := 110
  const FILESIZE_AT: nat := 54
  const NAMESIZE_AT: nat := 94
  const FIELD: nat := 8

  /** "070701" */
  const HEADER_MAGIC: seq<Byte> := [0x30, 0x37, 0x30, 0x37, 0x30, 0x31]

  /** "TRAILER!!!" */
  const TRAILER: seq<Byte> := [0x54, 0x52, 0x41, 0x49, 0x4C, 0x45, 0x52, 0x21, 0x21, 0x21]

  // ---------------------------------------------------------------- numbers

  /** The value of a hexadecimal digit of either case; 16 for any other character. */
  function Digit(c: Byte): (d: nat)
    ensures d <= 16
  {
    if '0' as int <= c <= '9' as int then c - '0' as int
    else if 'a' as int <= c <= 'f' as int then c - 'a' as int + 10
    else if 'A' as int <= c <= 'F' as int then c - 'A' as int + 10
    else 16
  }

  /** "0123456789abcdef" and "0123456789ABCDEF" */
  const LOWER: seq<Byte> :=
    [0x30, 0x31, 0x32, 0x33, 0x34, 0x35, 0x36, 0x37, 0x38, 0x39, 0x61, 0x62, 0x63, 0x64, 0x65, 0x66]
  const UPPER: seq<Byte> :=
    [0x30, 0x31, 0x32, 0x33, 0x34, 0x35, 0x36, 0x37, 0x38, 0x39, 0x41, 0x42, 0x43, 0x44, 0x45, 0x46]

  /** The digits of either case, and no other character. */
  lemma {:induction false} DigitsAre(c: Byte, d: nat)
    requires d < 16
    ensures Digit(c) == d <==> c == LOWER[d] || c == UPPER[d]
  {
  }

  /** What `parse_hex_str` makes of `n` characters from `i` on, with `r` read before them. */
  function ParseHex(m: seq<Byte>, i: nat, n: nat, r: nat): nat
    decreases n
  {
    if n == 0 then r
    else if Digit(At(m, i)) == 16 then r * 16
    else ParseHex(m, i + 1, n - 1, r * 16 + Digit(At(m, i)))
  }

  /** `parse_hex_str`: it ends at the first other character, which still shifts what was read. */
  method ParseHexStr(m: seq<Byte>, s: nat, max_len: nat) returns (r: nat)
    ensures r == ParseHex(m, s, max_len, 0)
  {
    r := 0;
    var i := 0;
    while i < max_len
      invariant i <= max_len && ParseHex(m, s, max_len, 0) == ParseHex(m, s + i, max_len - i, r)
    {
      var d := Digit(At(m, s + i));
      r := r * 16;
      if d < 16 {
        r := r + d;
      } else {
        return r;
      }
      i := i + 1;
    }
  }

  /** A positional number, written most significant digit first. */
  function Value(s: seq<Byte>): nat {
    if s == [] then 0 else Value(s[..|s| - 1]) * 16 + Digit(s[|s| - 1])
  }

  predicate IsHex(s: seq<Byte>) {
    forall k :: 0 <= k < |s| ==> Digit(s[k]) < 16
  }

  lemma {:induction false} ValueNext(done: seq<Byte>, c: Byte)
    ensures Value(done + [c]) == Value(done) * 16 + Digit(c)
  {
    assert (done + [c])[..|done|] == done;
  }

  lemma {:induction false} FirstDigit(m: seq<Byte>, i: nat, s: seq<Byte>)
    requires Holds(m, i, s) && IsHex(s) && s != []
    ensures Holds(m, i + 1, s[1..]) && IsHex(s[1..]) && At(m, i) == s[0] && Digit(s[0]) < 16
  {
    HoldsAt(m, i, s, 0);
    assert s == [s[0]] + s[1..];
    HoldsParts(m, i, [s[0]], s[1..]);
  }

  lemma {:induction false} Regroup(done: seq<Byte>, s: seq<Byte>)
    requires s != []
    ensures done + [s[0]] + s[1..] == done + s
  {
  }

  /** A field that holds only digits is read as the number it writes. */
  lemma {:induction false} ReadsNumber(m: seq<Byte>, i: nat, done: seq<Byte>, s: seq<Byte>)
    requires Holds(m, i, s) && IsHex(s)
    ensures ParseHex(m, i, |s|, Value(done)) == Value(done + s)
    decreases |s|
  {
    hide Holds, IsHex, Digit, Value, At;
    if s == [] {
      assert done + s == done;
    } else {
      FirstDigit(m, i, s);
      ValueNext(done, s[0]);
      Regroup(done, s);
      ReadsNumber(m, i + 1, done + [s[0]], s[1..]);
    }
  }

  /** A field with another character after its first digits is read as those digits, shifted once more. */
  lemma {:induction false} StopsAtForeign(m: seq<Byte>, i: nat, n: nat, done: seq<Byte>, s: seq<Byte>)
    requires Holds(m, i, s) && IsHex(s) && |s| < n && Digit(At(m, i + |s|)) == 16
    ensures ParseHex(m, i, n, Value(done)) == Value(done + s) * 16
    decreases |s|
  {
    hide Holds, IsHex, Digit, Value, At;
    if s == [] {
      assert done + s == done;
    } else {
      FirstDigit(m, i, s);
      ValueNext(done, s[0]);
      Regroup(done, s);
      StopsAtForeign(m, i + 1, n - 1, done + [s[0]], s[1..]);
    }
  }

  function HexDigit(d: nat): (c: Byte)
    requires d < 16
    ensures Digit(c) == d
  {
    if d < 10 then '0' as int + d else 'A' as int + d - 10
  }

  /** `n` written with `k` digits. */
  function Hex(n: nat, k: nat): (s: seq<Byte>)
    ensures |s| == k && IsHex(s)
  {
    if k == 0 then [] else Hex(n / 16, k - 1) + [HexDigit(n % 16)]
  }

  function Power16(k: nat): nat {
    if k == 0 then 1 else 16 * Power16(k - 1)
  }

  lemma {:induction false} HexWrites(n: nat, k: nat)
    requires n < Power16(k)
    ensures Value(Hex(n, k)) == n
  {
    if k > 0 {
      HexWrites(n / 16, k - 1);
      assert Hex(n, k)[..k - 1] == Hex(n / 16, k - 1);
    }
  }

  lemma {:induction false} ReadsField(m: seq<Byte>, i: nat, n: nat)
    requires n < WORD32 && Holds(m, i, Hex(n, FIELD))
    ensures ParseHex(m, i, FIELD, 0) == n
  {
    assert Power16(8) == WORD32 by {
      assert Power16(4) == 0x1_0000;
    }
    HexWrites(n, FIELD);
    ReadsNumber(m, i, [], Hex(n, FIELD));
    assert [] + Hex(n, FIELD) == Hex(n, FIELD);
  }

  // ---------------------------------------------------------------- comparison

  /** `strncmp`: it compares all `len` bytes and passes over NULs; the sign is that of the first difference. */
  method StrNCmp(m: seq<Byte>, i: nat, s: seq<Byte>, j: nat, len: nat) returns (r: int)
    ensures r == 0 <==> Stretch(m, i, len) == Stretch(s, j, len)
    ensures r != 0 ==> exists k ::
      0 <= k < len && Stretch(m, i, k) == Stretch(s, j, k) && r == (if At(m, i + k) < At(s, j + k) then -1 else 1)
  {
    var k := 0;
    while k < len
      invariant k <= len && Stretch(m, i, k) == Stretch(s, j, k)
    {
      if At(m, i + k) != At(s, j + k) {
        assert Stretch(m, i, len)[k] != Stretch(s, j, len)[k];
        return if At(m, i + k) < At(s, j + k) then -1 else 1;
      }
      StretchMore(m, i, k);
      StretchMore(s, j, k);
      k := k + 1;
    }
    return 0;
  }

  lemma {:induction false} SameStrings(m: seq<Byte>, i: nat, s: seq<Byte>)
    requires NulFree(s)
    ensures StrLen(m, i) == |s| && Stretch(m, i, |s|) == s <==> CString(m, i) == s
    ensures Stretch(m, i, |s| + 1) == s + [0] <==> CString(m, i) == s
  {
    var n, t := StrLen(m, i), Stretch(m, i, |s| + 1);
    if t == s + [0] {
      assert t[|s|] == 0;
      forall j | i <= j < i + |s|
        ensures At(m, j) != 0
      {
        assert t[j - i] == s[j - i] && s[j - i] in s;
      }
      assert n == |s|;
      assert CString(m, i) == t[..|s|] == s;
    }
    if CString(m, i) == s {
      assert t == s + [0];
    }
  }

  // ---------------------------------------------------------------- headers

  /** What `cpio_parse_header` returns: -1, 1, or 0 and what it stored. */
  datatype Parsed = Bad | Last | Entry(name: nat, size: nat, data: nat, next: nat)

  function ParseHeader(m: seq<Byte>, at: nat): (p: Parsed)
    ensures p.Entry? ==> at + HEADER_SIZE <= p.data <= p.next && at < |m|
  {
    var name := at + HEADER_SIZE;
    if Stretch(m, at, 6) != HEADER_MAGIC then Bad
    else
      assert Stretch(m, at, 6)[0] == 0x30;
      if Stretch(m, name, 11) == TRAILER + [0] then Last
      else
        var size := ParseHex(m, at + FILESIZE_AT, FIELD, 0);
        var data := AlignUp4(name + ParseHex(m, at + NAMESIZE_AT, FIELD, 0));
        Entry(name, size, data, AlignUp4(data + size))
  }

  lemma {:induction false} Constants()
    ensures Stretch(HEADER_MAGIC, 0, 6) == HEADER_MAGIC && Stretch(TRAILER, 0, 11) == TRAILER + [0]
  {
  }

  method CpioParseHeader(m: seq<Byte>, now: nat) returns (p: Parsed)
    ensures p == ParseHeader(m, now)
  {
    hide Stretch, ParseHex, AlignUp4;
    Constants();
    var magic := StrNCmp(m, now, HEADER_MAGIC, 0, 6);
    if magic != 0 {
      return Bad;
    }
    var filesize := ParseHexStr(m, now + FILESIZE_AT, FIELD);
    var filename := now + HEADER_SIZE;
    var trailer := StrNCmp(m, filename, TRAILER, 0, |TRAILER| + 1);
    if trailer == 0 {
      return Last;
    }
    var filename_length := ParseHexStr(m, now + NAMESIZE_AT, FIELD);
    var data := AlignUp4(now + HEADER_SIZE + filename_length);
    return Entry(filename, filesize, data, AlignUp4(data + filesize));
  }

  // ---------------------------------------------------------------- the search

  datatype Found = NotFound | File(start: nat, size: nat)

  /** The first header from `at` on whose file is called `name`. */
  function Find(m: seq<Byte>, at: nat, name: seq<Byte>): Found
    decreases |m| - at
  {
    match ParseHeader(m, at)
    case Entry(filename, size, data, next) =>
      if CString(m, filename) == name then File(data, size) else Find(m, next, name)
    case _ => NotFound
  }

  /** `cpio_traverse`; `name` ends at its first NUL, or at its end. */
  method CpioTraverse(m: seq<Byte>, ramfs: nat, name: seq<Byte>) returns (r: Found)
    ensures r == Find(m, ramfs, CString(name, 0))
  {
    var header := ramfs;
    var input_len := StringLength(name, 0);
    while true
      invariant Find(m, ramfs, CString(name, 0)) == Find(m, header, CString(name, 0))
      decreases |m| - header
    {
      var p := CpioParseHeader(m, header);
      match p {
        case Entry(filename, size, data, next) =>
          var len := StringLength(m, filename);
          if input_len == len {
            var c := StrNCmp(m, filename, name, 0, len);
            if c == 0 {
              return File(data, size);
            }
          }
          header := next;
        case _ =>
          return NotFound;
      }
    }
  }

  // ---------------------------------------------------------------- archives

  /** A file and the header fields that the kernel does not read. */
  datatype Item = Item(name: seq<Byte>, content: seq<Byte>, front: seq<Byte>, middle: seq<Byte>, check: seq<Byte>)

  predicate Storable(f: Item) {
    NulFree(f.name) && |f.name| + 1 < WORD32 && |f.content| < WORD32 &&
    |f.front| == 48 && |f.middle| == 32 && |f.check| == 8
  }

  function Header(f: Item): seq<Byte> {
    HEADER_MAGIC + f.front + Hex(|f.content|, FIELD) + f.middle + Hex(|f.name| + 1, FIELD) + f.check
  }

  function EntryBytes(f: Item): seq<Byte> {
    Header(f) + (Padded(2, f.name + [0]) + Padded(0, f.content))
  }

  function Archive(fs: seq<Item>, trailer: Item): seq<Byte> {
    if fs == [] then EntryBytes(trailer) else EntryBytes(fs[0]) + Archive(fs[1..], trailer)
  }

  lemma {:induction false} HeaderReads(m: seq<Byte>, at: nat, f: Item)
    requires Storable(f) && Holds(m, at, Header(f))
    ensures |Header(f)| == HEADER_SIZE && Stretch(m, at, 6) == HEADER_MAGIC
    ensures ParseHex(m, at + FILESIZE_AT, FIELD, 0) == |f.content|
    ensures ParseHex(m, at + NAMESIZE_AT, FIELD, 0) == |f.name| + 1
  {
    hide Holds, ParseHex, Hex;
    var size, namesize := Hex(|f.content|, FIELD), Hex(|f.name| + 1, FIELD);
    HoldsParts(m, at, HEADER_MAGIC + f.front + size + f.middle + namesize, f.check);
    HoldsParts(m, at, HEADER_MAGIC + f.front + size + f.middle, namesize);
    HoldsParts(m, at, HEADER_MAGIC + f.front + size, f.middle);
    HoldsParts(m, at, HEADER_MAGIC + f.front, size);
    HoldsParts(m, at, HEADER_MAGIC, f.front);
    StretchAt(m, at, HEADER_MAGIC);
    ReadsField(m, at + FILESIZE_AT, |f.content|);
    ReadsField(m, at + NAMESIZE_AT, |f.name| + 1);
  }

  lemma {:induction false} EntryPlaces(m: seq<Byte>, at: nat, f: Item)
    requires Storable(f) && Holds(m, at, EntryBytes(f)) && at % 4 == 0
    ensures var data := AlignUp4(at + HEADER_SIZE + |f.name| + 1);
      Holds(m, at + HEADER_SIZE, f.name + [0]) && Holds(m, data, f.content) && AlignUp4(data + |f.content|) == at + |EntryBytes(f)|
  {
    hide Holds, Header, AlignUp4;
    HeaderSize(f);
    var name, n, d := at + HEADER_SIZE, Padded(2, f.name + [0]), Padded(0, f.content);
    hide Padded;
    HoldsParts(m, at, Header(f), n + d);
    HoldsParts(m, name, n, d);
    HoldsPadded(m, name, 2, f.name + [0]);
    AlignedSum(at + 108, 2 + |f.name| + 1);
    var data := at + 108 + AlignUp4(2 + |f.name| + 1);
    assert name + |n| == data;
    HoldsPadded(m, data, 0, f.content);
    AlignedSum(data, |f.content|);
  }

  /** Where the parts of a stored file lie. */
  lemma {:induction false} EntryParts(m: seq<Byte>, at: nat, f: Item)
    requires Storable(f) && Holds(m, at, EntryBytes(f)) && at % 4 == 0
    ensures var data := AlignUp4(at + HEADER_SIZE + |f.name| + 1);
      CString(m, at + HEADER_SIZE) == f.name && Stretch(m, data, |f.content|) == f.content &&
      AlignUp4(data + |f.content|) == at + |EntryBytes(f)|
  {
    hide Holds, EntryBytes, CString, AlignUp4, Stretch, StrLen;
    EntryPlaces(m, at, f);
    CStringAt(m, at + HEADER_SIZE, f.name);
    StretchAt(m, AlignUp4(at + HEADER_SIZE + |f.name| + 1), f.content);
  }

  lemma {:induction false} HeaderSize(f: Item)
    requires Storable(f)
    ensures |Header(f)| == HEADER_SIZE
  {
  }

  lemma {:induction false} EntryAligned(f: Item)
    requires Storable(f)
    ensures |EntryBytes(f)| % 4 == 0
  {
    hide Header, Padded, AlignUp4;
    HeaderSize(f);
    assert |EntryBytes(f)| == 108 + AlignUp4(2 + |f.name + [0]|) + AlignUp4(|f.content|);
  }

  lemma {:induction false} HeaderParses(m: seq<Byte>, at: nat, name: seq<Byte>, size: nat)
    requires Stretch(m, at, 6) == HEADER_MAGIC && CString(m, at + HEADER_SIZE) == name
    requires ParseHex(m, at + FILESIZE_AT, FIELD, 0) == size && ParseHex(m, at + NAMESIZE_AT, FIELD, 0) == |name| + 1
    ensures var data := AlignUp4(at + HEADER_SIZE + |name| + 1);
      ParseHeader(m, at) ==
      if name == TRAILER then Last else Entry(at + HEADER_SIZE, size, data, AlignUp4(data + size))
  {
    hide ParseHex, CString, AlignUp4, Stretch;
    SameStrings(m, at + HEADER_SIZE, TRAILER);
  }

  /** A stored file is parsed to its name, its contents and the place right after it, unless it is the trailer. */
  lemma {:induction false} EntryReads(m: seq<Byte>, at: nat, f: Item)
    requires Storable(f) && Holds(m, at, EntryBytes(f)) && at % 4 == 0
    ensures var p := ParseHeader(m, at);
      if f.name == TRAILER then p == Last
      else
        p.Entry? && CString(m, p.name) == f.name && p.size == |f.content| && Stretch(m, p.data, p.size) == f.content &&
        p.next == at + |EntryBytes(f)|
  {
    hide Holds, ParseHex, Header, Padded, CString, AlignUp4, Stretch, ParseHeader;
    EntryParts(m, at, f);
    HoldsParts(m, at, Header(f), Padded(2, f.name + [0]) + Padded(0, f.content));
    hide EntryBytes;
    HeaderReads(m, at, f);
    HeaderParses(m, at, f.name, |f.content|);
  }

  /** The files stored before the first one that is called like the trailer. */
  function Visible(fs: seq<Item>): (v: seq<Item>) {
    if fs == [] || fs[0].name == TRAILER then [] else [fs[0]] + Visible(fs[1..])
  }

  /** `r` is the contents of the first of the files that is called `name`, or there is none. */
  predicate IsFirst(m: seq<Byte>, fs: seq<Item>, name: seq<Byte>, r: Found) {
    match r
    case NotFound => forall i :: 0 <= i < |fs| ==> fs[i].name != name
    case File(start, size) =>
      exists i :: 0 <= i < |fs| && fs[i].name == name && (forall j :: 0 <= j < i ==> fs[j].name != name) &&
                  size == |fs[i].content| && Stretch(m, start, size) == fs[i].content
  }

  lemma {:induction false} IsFirstLater(m: seq<Byte>, f: Item, fs: seq<Item>, name: seq<Byte>, r: Found)
    requires IsFirst(m, fs, name, r) && f.name != name
    ensures IsFirst(m, [f] + fs, name, r)
  {
    if r.File? {
      var i :| 0 <= i < |fs| && fs[i].name == name && (forall j :: 0 <= j < i ==> fs[j].name != name) &&
               r.size == |fs[i].content| && Stretch(m, r.start, r.size) == fs[i].content;
      assert ([f] + fs)[i + 1] == fs[i];
    }
  }

  /** The search in an archive of any files finds the first visible file of the name, whole, or rightly nothing. */
  lemma {:induction false} FindsFirst(m: seq<Byte>, at: nat, fs: seq<Item>, trailer: Item, name: seq<Byte>)
    requires (forall f :: f in fs ==> Storable(f)) && Storable(trailer) && trailer.name == TRAILER
    requires at % 4 == 0 && Holds(m, at, Archive(fs, trailer))
    ensures IsFirst(m, Visible(fs), name, Find(m, at, name))
    decreases |fs|
  {
    hide Holds, EntryBytes, ParseHeader, IsFirst, CString, Storable;
    if fs == [] {
      EntryReads(m, at, trailer);
      NothingFirst(m, name);
    } else {
      HoldsParts(m, at, EntryBytes(fs[0]), Archive(fs[1..], trailer));
      EntryReads(m, at, fs[0]);
      EntryAligned(fs[0]);
      if fs[0].name == TRAILER {
        NothingFirst(m, name);
      } else if fs[0].name == name {
        ThisFirst(m, Visible(fs), name, Find(m, at, name));
      } else {
        FindsFirst(m, at + |EntryBytes(fs[0])|, fs[1..], trailer, name);
        IsFirstLater(m, fs[0], Visible(fs[1..]), name, Find(m, at, name));
      }
    }
  }

  lemma {:induction false} NothingFirst(m: seq<Byte>, name: seq<Byte>)
    ensures IsFirst(m, [], name, NotFound)
  {
  }

  lemma {:induction false} ThisFirst(m: seq<Byte>, fs: seq<Item>, name: seq<Byte>, r: Found)
    requires |fs| > 0 && fs[0].name == name && r.File? && r.size == |fs[0].content|
    requires Stretch(m, r.start, r.size) == fs[0].content
    ensures IsFirst(m, fs, name, r)
  {
  }

  /** With no file called like the trailer, every file can be found. */
  lemma {:induction false} AllVisible(fs: seq<Item>)
    ensures Visible(fs) == fs <==> forall i :: 0 <= i < |fs| ==> fs[i].name != TRAILER
  {
    if fs != [] {
      AllVisible(fs[1..]);
      assert fs == [fs[0]] + fs[1..];
    }
  }
}
