/** Sending a kernel image over the serial line: the boot loader and the program at the other end. */
module BootTransfer {
  import opened Bytes

  const SIGN: nat := 0x8000_0000

  /** "c8763" */
  const HEADER: seq<Byte> := [0x63, 0x38, 0x37, 0x36, 0x33]

  // ---------------------------------------------------------------- the loader

  /** Where the loader waits for a byte, or that it has entered the kernel it stored. */
  datatype Loader = Matching(idx: nat) | Sizing(k: nat, size: nat) | Loading(size: nat, kernel: seq<Byte>) | Running(kernel: seq<Byte>)

  function Match(idx: nat, b: Byte): nat
    requires idx < 5
  {
    if b != HEADER[idx] then 1 else idx + 1
  }

  /** `img_size <<= 8; img_size |= b`, as the bits of a 32-bit integer. */
  function Shift(size: nat, b: Byte): nat {
    (size * 256 + b) % WORD32
  }

  /** How many bytes the loop `i < img_size` reads: none for a negative integer. */
  function Limit(size: nat): nat {
    if size < SIGN then size else 0
  }

  function Load(size: nat, kernel: seq<Byte>): Loader {
    if |kernel| < Limit(size) then Loading(size, kernel) else Running(kernel)
  }

  predicate Waits(l: Loader) {
    match l
    case Matching(idx) => idx < 5
    case Sizing(k, _) => k < 4
    case Loading(_, _) => true
    case Running(_) => false
  }

  /** The loader reads a byte; and what it sends back. */
  function Take(l: Loader, b: Byte): (Loader, seq<Byte>)
    requires Waits(l)
  {
    match l
    case Matching(idx) =>
      (if Match(idx, b) == 5 then Sizing(0, 0) else Matching(Match(idx, b)), [b])
    case Sizing(k, size) =>
      (if k == 3 then Load(Shift(size, b), []) else Sizing(k + 1, Shift(size, b)), [])
    case Loading(size, kernel) => (Load(size, kernel + [b]), [b])
  }

  /** The loader is fed all of `input` that it reads. */
  function Feed(l: Loader, input: seq<Byte>): (Loader, seq<Byte>)
    decreases |input|
  {
    if input == [] || !Waits(l) then (l, [])
    else
      var now := Take(l, input[0]);
      var later := Feed(now.0, input[1..]);
      (later.0, now.1 + later.1)
  }

  /** The loader is at `l`, has read `read` bytes of the input and sent `sent`. */
  ghost predicate Reached(input: seq<Byte>, l: Loader, read: nat, sent: seq<Byte>) {
    read <= |input| &&
    var all, rest := Feed(Matching(0), input), Feed(l, input[read..]);
    all == (rest.0, sent + rest.1)
  }

  lemma {:induction false} ReachedStart(input: seq<Byte>)
    ensures Reached(input, Matching(0), 0, [])
  {
    var rest := Feed(Matching(0), input);
    assert input[0..] == input && [] + rest.1 == rest.1;
  }

  lemma {:induction false} ReachedNext(input: seq<Byte>, l: Loader, read: nat, sent: seq<Byte>)
    requires Reached(input, l, read, sent) && read < |input| && Waits(l)
    ensures Reached(input, Take(l, input[read]).0, read + 1, sent + Take(l, input[read]).1)
  {
    var now, rest := Take(l, input[read]), Feed(Take(l, input[read]).0, input[read + 1..]);
    assert input[read..][1..] == input[read + 1..];
    assert sent + (now.1 + rest.1) == sent + now.1 + rest.1;
  }

  lemma {:induction false} ReachedEnd(input: seq<Byte>, l: Loader, read: nat, sent: seq<Byte>)
    requires Reached(input, l, read, sent) && (read == |input| || l.Running?)
    ensures Feed(Matching(0), input) == (l, sent)
  {
    assert sent + [] == sent;
  }

  /** `c8763_reader`, from its start to the end of `input` or its jump into the kernel. */
  method C8763Reader(input: seq<Byte>) returns (l: Loader, sent: seq<Byte>)
    ensures (l, sent) == Feed(Matching(0), input)
  {
    hide Reached, Feed;
    var read := 0;
    sent := [];
    ReachedStart(input);
    var idx := 0;
    while idx != 5
      invariant idx <= 5 && read <= |input|
      invariant Reached(input, if idx == 5 then Sizing(0, 0) else Matching(idx), read, sent)
      decreases |input| - read
    {
      if read == |input| {
        ReachedEnd(input, Matching(idx), read, sent);
        return Matching(idx), sent;
      }
      ReachedNext(input, Matching(idx), read, sent);
      var data := input[read];
      read := read + 1;
      if data != HEADER[idx] {
        idx := 0;
      }
      idx := idx + 1;
      sent := sent + [data];
    }
    var img_size := 0;
    for i := 0 to 4
      invariant read <= |input| && Reached(input, if i == 4 then Load(img_size, []) else Sizing(i, img_size), read, sent)
    {
      if read == |input| {
        ReachedEnd(input, Sizing(i, img_size), read, sent);
        return Sizing(i, img_size), sent;
      }
      ReachedNext(input, Sizing(i, img_size), read, sent);
      assert sent + [] == sent;
      img_size := Shift(img_size, input[read]);
      read := read + 1;
    }
    var kernel: seq<Byte> := [];
    while |kernel| < Limit(img_size)
      invariant read <= |input| && Reached(input, Load(img_size, kernel), read, sent)
      decreases |input| - read
    {
      if read == |input| {
        ReachedEnd(input, Loading(img_size, kernel), read, sent);
        return Loading(img_size, kernel), sent;
      }
      ReachedNext(input, Loading(img_size, kernel), read, sent);
      kernel := kernel + [input[read]];
      sent := sent + [input[read]];
      read := read + 1;
    }
    ReachedEnd(input, Running(kernel), read, sent);
    return Running(kernel), sent;
  }

  // ---------------------------------------------------------------- the matcher

  /** The matcher after `t`, when it has not accepted before. */
  function Matched(idx: nat, t: seq<Byte>): (r: nat)
    requires idx <= 5
    ensures r <= 5
    decreases |t|
  {
    if idx == 5 || t == [] then idx else Matched(Match(idx, t[0]), t[1..])
  }

  /** From any index, the header is accepted, and at its fifth byte, not before. */
  lemma {:induction false} HeaderIsAccepted(idx: nat, k: nat)
    requires idx < 5 && k <= 5
    ensures Matched(idx, HEADER[..k]) == if k == 0 then idx else k
  {
    if k > 0 {
      assert HEADER[..k][0] == HEADER[0];
      MatchOn(1, 1, k);
      assert HEADER[..k][1..] == HEADER[1..k];
    }
  }

  lemma {:induction false} MatchOn(idx: nat, i: nat, k: nat)
    requires idx == i <= k <= 5
    ensures Matched(idx, HEADER[i..k]) == k
    decreases k - i
  {
    if i < k {
      assert HEADER[i..k][0] == HEADER[i] && HEADER[i..k][1..] == HEADER[i + 1..k];
      MatchOn(i + 1, i + 1, k);
    }
  }

  lemma {:induction false} HeaderRest(i: nat)
    requires i < 5
    ensures HEADER[i..] == [HEADER[i]] + HEADER[i + 1..]
  {
  }

  lemma {:induction false} MatchRest(i: nat, t: seq<Byte>)
    requires 1 <= i <= 5 && |t| == 5 - i
    ensures Matched(i, t) == 5 <==> t == HEADER[i..]
    decreases |t|
  {
    if i < 5 {
      HeaderRest(i);
      assert t == [t[0]] + t[1..];
      if t[0] == HEADER[i] {
        MatchRest(i + 1, t[1..]);
      } else {
        MatchedAdvances(1, t[1..]);
      }
    }
  }

  lemma {:induction false} MatchedAdvances(idx: nat, t: seq<Byte>)
    requires idx <= 5
    ensures idx >= 1 ==> Matched(idx, t) <= idx + |t|
    decreases |t|
  {
    if idx < 5 && t != [] {
      MatchedAdvances(Match(idx, t[0]), t[1..]);
    }
  }

  /** A matcher that could run through before the end of `t`, and does not, does not at the end either. */
  lemma {:induction false} NotAtTheEnd(i: nat, t: seq<Byte>)
    requires 1 <= i < 5 && 5 - i < |t| <= 4 && Matched(i, t[..|t| - 1]) < 5
    ensures Matched(i, t) < 5
    decreases |t|
  {
    assert t[..|t| - 1][0] == t[0] && t[..|t| - 1][1..] == t[1..][..|t| - 2];
    if t[0] == HEADER[i] {
      NotAtTheEnd(i + 1, t[1..]);
    } else {
      MatchedAdvances(1, t[1..]);
    }
  }

  /** Whatever the index of a waiting matcher: of five bytes with no acceptance within the first four, the fifth is
      accepted exactly when the last four are right and the first did not carry the matcher on from a later index.
      What the first byte is does not matter otherwise. */
  lemma {:induction false} FirstByteIsNotCompared(idx: nat, t: seq<Byte>)
    requires idx < 5 && |t| == 5 && Matched(idx, t[..4]) < 5
    ensures Matched(idx, t) == 5 <==> t[1..] == HEADER[1..] && (idx == 0 || t[0] != HEADER[idx])
  {
    assert t[..4][0] == t[0] && t[..4][1..] == t[1..][..3];
    if idx == 0 || t[0] != HEADER[idx] {
      assert Match(idx, t[0]) == 1;
      MatchRest(1, t[1..]);
    } else {
      NotAtTheEnd(idx + 1, t[1..]);
    }
  }

  /** So a wrong first byte is accepted: any byte but the one that the matcher waits for, and at index 0 any at all. */
  lemma {:induction false} WrongFirstByte(idx: nat, b: Byte)
    requires idx < 5 && (idx == 0 || b != HEADER[idx])
    ensures Matched(idx, [b] + HEADER[1..]) == 5
  {
    assert ([b] + HEADER[1..])[1..] == HEADER[1..];
    MatchRest(1, HEADER[1..]);
  }

  // ---------------------------------------------------------------- the sender

  /** Where `main` writes or waits for an echo. */
  datatype Sender =
    | WriteHeader(i: nat)
    | AwaitHeader(i: nat)
    | WriteSize
    | WriteImage(i: nat)
    | AwaitImage(i: nat)
    | Finished
    | Failed

  /** A write, or the end. A size that does not fit four bytes raises an error. */
  function Write(p: Sender, img: seq<Byte>): (Sender, seq<Byte>)
    requires p.WriteHeader? ==> p.i < 5
    requires p.WriteImage? ==> p.i <= |img|
  {
    match p
    case WriteHeader(i) => (AwaitHeader(i), [HEADER[i]])
    case WriteSize => if |img| < WORD32 then (WriteImage(0), Big(|img|)) else (Failed, [])
    case WriteImage(i) => if i < |img| then (AwaitImage(i), [img[i]]) else (Finished, [])
    case _ => (p, [])
  }

  /** An echo arrives. */
  function Check(p: Sender, img: seq<Byte>, b: Byte): Sender
    requires p.AwaitHeader? ==> p.i < 5
    requires p.AwaitImage? ==> p.i < |img|
  {
    match p
    case AwaitHeader(i) => if b != HEADER[i] then Failed else if i == 4 then WriteSize else WriteHeader(i + 1)
    case AwaitImage(i) => if b != img[i] then Failed else WriteImage(i + 1)
    case _ => p
  }

  predicate Within(p: Sender, img: seq<Byte>) {
    match p
    case WriteHeader(i) => i < 5
    case AwaitHeader(i) => i < 5
    case WriteImage(i) => i <= |img|
    case AwaitImage(i) => i < |img|
    case _ => true
  }

  predicate Awaits(p: Sender) {
    p.AwaitHeader? || p.AwaitImage?
  }

  /** How many writes and echoes are left at most. */
  function Left(p: Sender, img: seq<Byte>): (r: int)
    requires Within(p, img)
    ensures r >= 0
  {
    match p
    case WriteHeader(i) => 2 * (5 - i) + 2 * |img| + 4
    case AwaitHeader(i) => 2 * (5 - i) + 2 * |img| + 3
    case WriteSize => 2 * |img| + 3
    case WriteImage(i) => 2 * (|img| - i) + 1
    case AwaitImage(i) => 2 * (|img| - i)
    case _ => 0
  }

  /** The sender, as far as these echoes let it come; and all it writes. */
  function Sends(p: Sender, img: seq<Byte>, echoes: seq<Byte>): (Sender, seq<Byte>)
    requires Within(p, img)
    decreases Left(p, img)
  {
    if p.Finished? || p.Failed? then (p, [])
    else if Awaits(p) then
      if echoes == [] then (p, []) else Sends(Check(p, img, echoes[0]), img, echoes[1..])
    else
      var (next, out) := Write(p, img);
      var later := Sends(next, img, echoes);
      (later.0, out + later.1)
  }

  /** The sender is at `p`, has read `read` echoes and written `out`. */
  ghost predicate Came(img: seq<Byte>, echoes: seq<Byte>, p: Sender, read: nat, out: seq<Byte>) {
    Within(p, img) && read <= |echoes| &&
    var all, rest := Sends(WriteHeader(0), img, echoes), Sends(p, img, echoes[read..]);
    all == (rest.0, out + rest.1)
  }

  lemma {:induction false} CameStart(img: seq<Byte>, echoes: seq<Byte>)
    ensures Came(img, echoes, WriteHeader(0), 0, [])
  {
    hide Sends;
    assert echoes[0..] == echoes && [] + Sends(WriteHeader(0), img, echoes).1 == Sends(WriteHeader(0), img, echoes).1;
  }

  lemma {:induction false} CameWrite(img: seq<Byte>, echoes: seq<Byte>, p: Sender, read: nat, out: seq<Byte>)
    requires Came(img, echoes, p, read, out) && !Awaits(p) && !p.Finished? && !p.Failed?
    ensures Came(img, echoes, Write(p, img).0, read, out + Write(p, img).1)
  {
    hide Big;
    var now, rest := Write(p, img), Sends(Write(p, img).0, img, echoes[read..]);
    assert out + (now.1 + rest.1) == out + now.1 + rest.1;
  }

  lemma {:induction false} CameEcho(img: seq<Byte>, echoes: seq<Byte>, p: Sender, read: nat, out: seq<Byte>)
    requires Came(img, echoes, p, read, out) && Awaits(p) && read < |echoes|
    ensures Came(img, echoes, Check(p, img, echoes[read]), read + 1, out)
  {
    assert echoes[read..][1..] == echoes[read + 1..];
  }

  lemma {:induction false} CameEnd(img: seq<Byte>, echoes: seq<Byte>, p: Sender, read: nat, out: seq<Byte>)
    requires Came(img, echoes, p, read, out)
    requires p.Finished? || p.Failed? || (Awaits(p) && read == |echoes|)
    ensures Sends(WriteHeader(0), img, echoes) == (p, out)
  {
    assert out + [] == out;
  }

  /** `main` of the sending program, until it ends or waits for an echo that is not there. */
  method SendImage(img: seq<Byte>, echoes: seq<Byte>) returns (p: Sender, out: seq<Byte>)
    ensures (p, out) == Sends(WriteHeader(0), img, echoes)
  {
    hide Came, Sends, Big;
    var read := 0;
    out := [];
    CameStart(img, echoes);
    for i := 0 to 5
      invariant read <= |echoes| && Came(img, echoes, if i < 5 then WriteHeader(i) else WriteSize, read, out)
    {
      CameWrite(img, echoes, WriteHeader(i), read, out);
      out := out + [HEADER[i]];
      if read == |echoes| {
        CameEnd(img, echoes, AwaitHeader(i), read, out);
        return AwaitHeader(i), out;
      }
      CameEcho(img, echoes, AwaitHeader(i), read, out);
      var check := echoes[read];
      read := read + 1;
      if check != HEADER[i] {
        CameEnd(img, echoes, Failed, read, out);
        return Failed, out;
      }
    }
    CameWrite(img, echoes, WriteSize, read, out);
    if |img| >= WORD32 {
      assert out + [] == out;
      CameEnd(img, echoes, Failed, read, out);
      return Failed, out;
    }
    out := out + Big(|img|);
    for i := 0 to |img|
      invariant read <= |echoes| && Came(img, echoes, WriteImage(i), read, out)
    {
      CameWrite(img, echoes, WriteImage(i), read, out);
      out := out + [img[i]];
      if read == |echoes| {
        CameEnd(img, echoes, AwaitImage(i), read, out);
        return AwaitImage(i), out;
      }
      CameEcho(img, echoes, AwaitImage(i), read, out);
      var check := echoes[read];
      read := read + 1;
      if check != img[i] {
        CameEnd(img, echoes, Failed, read, out);
        return Failed, out;
      }
    }
    CameWrite(img, echoes, WriteImage(|img|), read, out);
    assert out + [] == out;
    CameEnd(img, echoes, Finished, read, out);
    return Finished, out;
  }

  // ---------------------------------------------------------------- the two together

  /** Both parties, and the bytes on their way up to the loader and down to the sender. */
  datatype Line = Line(sender: Sender, loader: Loader, up: seq<Byte>, down: seq<Byte>)

  datatype Party = Sending | Receiving

  predicate Enabled(s: Line, who: Party) {
    match who
    case Receiving => Waits(s.loader) && s.up != []
    case Sending => !s.sender.Finished? && !s.sender.Failed? && (Awaits(s.sender) ==> s.down != [])
  }

  function Step(s: Line, img: seq<Byte>, who: Party): Line
    requires Within(s.sender, img) && Enabled(s, who)
  {
    match who
    case Receiving =>
      var (l, echo) := Take(s.loader, s.up[0]);
      s.(loader := l, up := s.up[1..], down := s.down + echo)
    case Sending =>
      if Awaits(s.sender) then
        s.(sender := Check(s.sender, img, s.down[0]), down := s.down[1..])
      else
        var (p, out) := Write(s.sender, img);
        s.(sender := p, up := s.up + out)
  }

  /** Everything the sender writes, and every echo it gets, in order. */
  function Stream(img: seq<Byte>): (r: seq<Byte>)
    ensures |r| == 9 + |img|
  {
    HEADER + Big(|img|) + img
  }

  function Echoes(img: seq<Byte>): (r: seq<Byte>)
    ensures |r| == 5 + |img|
  {
    HEADER + img
  }

  function Written(p: Sender, img: seq<Byte>): nat {
    match p
    case WriteHeader(i) => i
    case AwaitHeader(i) => i + 1
    case WriteSize => 5
    case WriteImage(i) => 9 + i
    case AwaitImage(i) => 10 + i
    case Finished => 9 + |img|
    case Failed => 5
  }

  function Heard(p: Sender, img: seq<Byte>): nat {
    match p
    case WriteHeader(i) => i
    case AwaitHeader(i) => i
    case WriteSize => 5
    case WriteImage(i) => 5 + i
    case AwaitImage(i) => 5 + i
    case Finished => 5 + |img|
    case Failed => 5
  }

  /** How many echoes the loader has sent when it has read `q` bytes. */
  function Echoed(q: nat): nat {
    if q <= 5 then q else if q <= 9 then 5 else q - 4
  }

  /** The number that the first `k` of four bytes write. */
  function SizeSoFar(n: nat, k: nat): nat {
    if k == 0 then 0 else if k == 1 then n / 0x100_0000 else if k == 2 then n / 0x1_0000 else if k == 3 then n / 256 else n
  }

  /** The loader after `q` bytes of the stream, from any index of the matcher. */
  predicate LoaderAt(l: Loader, img: seq<Byte>, q: nat) {
    if q == 0 then l.Matching? && l.idx < 5
    else if q < 5 then l == Matching(q)
    else if q < 9 then l == Sizing(q - 5, SizeSoFar(|img|, q - 5))
    else q <= 9 + Limit(|img|) && l == Load(|img|, img[..q - 9])
  }

  /** The sender fails only on a size that does not fit four bytes, and goes on only with one that does. */
  predicate Fits(p: Sender, img: seq<Byte>) {
    Within(p, img) &&
    (p.WriteImage? || p.AwaitImage? || p.Finished? ==> |img| < WORD32) &&
    (p.Failed? ==> |img| >= WORD32)
  }

  /** Each channel holds exactly the bytes that one party has sent and the other not yet read. */
  ghost predicate Inv(s: Line, img: seq<Byte>) {
    Fits(s.sender, img) &&
    |s.up| <= Written(s.sender, img) &&
    var q := Written(s.sender, img) - |s.up|;
    s.up == Stream(img)[q..Written(s.sender, img)] &&
    LoaderAt(s.loader, img, q) &&
    Heard(s.sender, img) <= Echoed(q) <= 5 + |img| &&
    s.down == Echoes(img)[Heard(s.sender, img)..Echoed(q)]
  }

  lemma {:induction false} InvAtStart(img: seq<Byte>, idx: nat)
    requires idx < 5
    ensures Inv(Line(WriteHeader(0), Matching(idx), [], []), img)
  {
  }

  lemma {:induction false} StreamAt(img: seq<Byte>, q: nat)
    requires q < |Stream(img)|
    ensures Stream(img)[q] == if q < 5 then HEADER[q] else if q < 9 then Big(|img|)[q - 5] else img[q - 9]
  {
  }

  lemma {:induction false} SizeGrows(n: nat, k: nat)
    requires n < WORD32 && k < 4
    ensures Shift(SizeSoFar(n, k), Big(n)[k]) == SizeSoFar(n, k + 1)
  {
    var whole := SizeSoFar(n, k + 1);
    ByteShifts(n);
    assert n / 0x100_0000 < 256;
    assert SizeSoFar(n, k) == whole / 256 && Big(n)[k] == whole % 256;
    assert whole == whole / 256 * 256 + whole % 256;
    assert whole <= n;
  }

  lemma {:induction false} HeaderMovesOn(l: Loader, img: seq<Byte>, q: nat)
    requires LoaderAt(l, img, q) && q < 5
    ensures Take(l, Stream(img)[q]) == (if q == 4 then Sizing(0, 0) else Matching(q + 1), [HEADER[q]])
  {
    StreamAt(img, q);
  }

  /** The loader reads the next byte of the stream: it moves on, and echoes the next byte of the echoes, or none. */
  lemma {:induction false} LoaderMovesOn(l: Loader, img: seq<Byte>, q: nat)
    requires LoaderAt(l, img, q) && Waits(l) && q < 9 + |img| && (q >= 5 ==> |img| < WORD32)
    ensures var (next, echo) := Take(l, Stream(img)[q]);
      LoaderAt(next, img, q + 1) && Echoed(q + 1) <= 5 + |img| && echo == Echoes(img)[Echoed(q)..Echoed(q + 1)]
  {
    hide Shift, Big;
    if q < 5 {
      HeaderMovesOn(l, img, q);
    } else if q < 9 {
      StreamAt(img, q);
      SizeGrows(|img|, q - 5);
    } else {
      StreamAt(img, q);
      assert img[..q - 9] + [img[q - 9]] == img[..q - 8];
      assert Echoes(img)[q - 4..q - 3] == [img[q - 9]];
    }
  }

  lemma {:induction false} ReceivingKeepsInv(s: Line, img: seq<Byte>)
    requires Inv(s, img) && Enabled(s, Receiving)
    ensures Inv(Step(s, img, Receiving), img)
  {
    hide LoaderAt, Take, Stream, Echoes;
    var w, h := Written(s.sender, img), Heard(s.sender, img);
    var q := w - |s.up|;
    assert w <= 9 + |img|;
    LoaderMovesOn(s.loader, img, q);
  }

  /** What is written is the next of the stream. */
  lemma {:induction false} WritesStream(p: Sender, img: seq<Byte>)
    requires Fits(p, img) && (p.WriteHeader? || p.WriteSize? || p.WriteImage?)
    ensures var (next, out) := Write(p, img);
      Fits(next, img) && Heard(next, img) == Heard(p, img) && Written(next, img) == Written(p, img) + |out| &&
      Written(next, img) <= 9 + |img| && out == Stream(img)[Written(p, img)..Written(next, img)]
  {
    hide Big;
  }

  /** The right echo is accepted. */
  lemma {:induction false} AcceptsEcho(p: Sender, img: seq<Byte>)
    requires Fits(p, img) && Awaits(p)
    ensures var next := Check(p, img, Echoes(img)[Heard(p, img)]);
      Fits(next, img) && !next.Failed? && Heard(next, img) == Heard(p, img) + 1 && Written(next, img) == Written(p, img)
  {
  }

  /** And any other is not. */
  lemma {:induction false} RejectsEcho(p: Sender, img: seq<Byte>, b: Byte)
    requires Fits(p, img) && Awaits(p) && Heard(p, img) < 5 + |img|
    ensures Check(p, img, b) == Failed <==> b != Echoes(img)[Heard(p, img)]
  {
  }

  lemma {:induction false} Slices(s: seq<Byte>, i: nat, j: nat)
    requires i <= j <= |s|
    ensures s[i..j] + s[j..] == s[i..] && s[|s|..] == []
    ensures i < |s| ==> s[i..][0] == s[i] && s[i..][1..] == s[i + 1..]
  {
  }

  /** Fed the whole stream from any index, the loader enters the image and has sent exactly the echoes. */
  lemma {:induction false} LoadsStream(l: Loader, img: seq<Byte>, q: nat)
    requires LoaderAt(l, img, q) && q <= 9 + |img| && |img| < SIGN
    ensures Echoed(q) <= 5 + |img| && Feed(l, Stream(img)[q..]) == (Running(img), Echoes(img)[Echoed(q)..])
    decreases 9 + |img| - q
  {
    if q == 9 + |img| {
      LoaderIsDone(l, img);
    } else {
      LoaderWaits(l, img, q);
      LoaderMovesOn(l, img, q);
      hide Stream, Echoes, Take, Waits, LoaderAt;
      LoadsStream(Take(l, Stream(img)[q]).0, img, q + 1);
      Slices(Stream(img), q, q + 1);
      Slices(Echoes(img), Echoed(q), Echoed(q + 1));
    }
  }

  lemma {:induction false} LoaderIsDone(l: Loader, img: seq<Byte>)
    requires LoaderAt(l, img, 9 + |img|) && |img| < SIGN
    ensures Feed(l, Stream(img)[9 + |img|..]) == (Running(img), Echoes(img)[Echoed(9 + |img|)..])
  {
    assert img[..|img|] == img && Echoes(img)[5 + |img|..] == [];
  }

  lemma {:induction false} LoaderWaits(l: Loader, img: seq<Byte>, q: nat)
    requires LoaderAt(l, img, q) && q < 9 + |img| && |img| < SIGN
    ensures Waits(l) && Echoed(q) <= Echoed(q + 1) <= 5 + |img|
  {
  }

  lemma {:induction false} SendsOn(p: Sender, img: seq<Byte>, echoes: seq<Byte>)
    requires Within(p, img)
    ensures p.Finished? ==> Sends(p, img, echoes) == (p, [])
    ensures Awaits(p) && echoes != [] ==> Sends(p, img, echoes) == Sends(Check(p, img, echoes[0]), img, echoes[1..])
    ensures !Awaits(p) && !p.Finished? && !p.Failed? ==>
      var (next, out) := Write(p, img); var later := Sends(next, img, echoes);
      Sends(p, img, echoes) == (later.0, out + later.1) && Left(next, img) < Left(p, img)
  {
    hide Big;
  }

  /** Given exactly the right echoes, the sender finishes and has written the stream; so for every image that four
      bytes can measure. */
  lemma {:induction false} SendsStream(p: Sender, img: seq<Byte>)
    requires Fits(p, img) && !p.Failed? && |img| < WORD32 && Heard(p, img) <= 5 + |img| && Written(p, img) <= 9 + |img|
    ensures Sends(p, img, Echoes(img)[Heard(p, img)..]) == (Finished, Stream(img)[Written(p, img)..])
    decreases Left(p, img)
  {
    hide Echoes, Stream, Check, Write, Sends;
    var h, w := Heard(p, img), Written(p, img);
    SendsOn(p, img, Echoes(img)[h..]);
    Slices(Echoes(img), h, h);
    Slices(Stream(img), w, w);
    if Awaits(p) {
      AcceptsEcho(p, img);
      SendsStream(Check(p, img, Echoes(img)[h]), img);
    } else if p == WriteImage(|img|) {
      SenderIsDone(img);
    } else if !p.Finished? {
      WritesStream(p, img);
      var next := Write(p, img).0;
      SendsStream(next, img);
      Slices(Stream(img), w, Written(next, img));
    }
  }

  lemma {:induction false} SenderIsDone(img: seq<Byte>)
    ensures Sends(WriteImage(|img|), img, Echoes(img)[5 + |img|..]) == (Finished, Stream(img)[9 + |img|..])
  {
    var echoes := Echoes(img)[5 + |img|..];
    SendsOn(WriteImage(|img|), img, echoes);
    SendsOn(Finished, img, echoes);
    assert Write(WriteImage(|img|), img) == (Finished, []);
    var none: seq<Byte> := [];
    assert Stream(img)[9 + |img|..] == none && none + none == none;
    hide Sends;
  }

  lemma {:induction false} SendingKeepsInv(s: Line, img: seq<Byte>)
    requires Inv(s, img) && Enabled(s, Sending)
    ensures Inv(Step(s, img, Sending), img)
  {
    hide LoaderAt, Stream, Echoes, Big, Check, Write;
    if Awaits(s.sender) {
      AcceptsEcho(s.sender, img);
    } else {
      WritesStream(s.sender, img);
    }
  }

  /** How many steps are left at most. */
  function Rank(s: Line, img: seq<Byte>): int
    requires Within(s.sender, img)
  {
    9 + |img| - (Written(s.sender, img) - |s.up|) + Left(s.sender, img)
  }

  lemma {:induction false} StepLowersRank(s: Line, img: seq<Byte>, who: Party)
    requires Inv(s, img) && Enabled(s, who)
    ensures Within(Step(s, img, who).sender, img) && 0 <= Rank(Step(s, img, who), img) < Rank(s, img)
  {
    hide Stream, Echoes, LoaderAt, Take, Big;
    if who == Sending {
      if Awaits(s.sender) {
        AcceptsEcho(s.sender, img);
      } else {
        WritesStream(s.sender, img);
      }
    }
  }

  /** Every party is done, and the kernel is the image. */
  predicate Done(s: Line, img: seq<Byte>) {
    s.sender.Finished? && s.loader == Running(img)
  }

  /** When neither party can move, the transfer is done if and only if the size is a positive 32-bit integer. */
  lemma {:induction false} StuckMeansDone(s: Line, img: seq<Byte>)
    requires Inv(s, img) && !Enabled(s, Sending) && !Enabled(s, Receiving)
    ensures Done(s, img) <==> |img| < SIGN
  {
  }

  predicate CanRun(s: Line, img: seq<Byte>, run: seq<Party>)
    decreases |run|
  {
    run == [] || (Within(s.sender, img) && Enabled(s, run[0]) && CanRun(Step(s, img, run[0]), img, run[1..]))
  }

  function Run(s: Line, img: seq<Byte>, run: seq<Party>): Line
    requires CanRun(s, img, run)
    decreases |run|
  {
    if run == [] then s else Run(Step(s, img, run[0]), img, run[1..])
  }

  lemma {:induction false} RunKeepsInv(s: Line, img: seq<Byte>, run: seq<Party>)
    requires Inv(s, img) && CanRun(s, img, run)
    ensures Within(s.sender, img) && Inv(Run(s, img, run), img) && 0 <= Rank(Run(s, img, run), img) <= Rank(s, img) - |run|
    decreases |run|
  {
    hide Inv, Rank, Enabled, Step;
    RankIsNat(s, img);
    if run != [] {
      StepLowersRank(s, img, run[0]);
      if run[0] == Sending { SendingKeepsInv(s, img); } else { ReceivingKeepsInv(s, img); }
      RunKeepsInv(Step(s, img, run[0]), img, run[1..]);
    }
  }

  lemma {:induction false} RankIsNat(s: Line, img: seq<Byte>)
    requires Inv(s, img)
    ensures Within(s.sender, img) && Rank(s, img) >= 0
  {
  }

  /** However the parties take turns, and wherever the matcher stands: no echo is wrong, a kernel that is entered
      is the image, a run is short, and one that cannot go on has transferred the image. */
  lemma {:induction false} TransferIsRight(img: seq<Byte>, idx: nat, run: seq<Party>)
    requires idx < 5
    requires CanRun(Line(WriteHeader(0), Matching(idx), [], []), img, run)
    ensures |run| <= 3 * |img| + 23
    ensures var s := Run(Line(WriteHeader(0), Matching(idx), [], []), img, run);
      (s.sender.Failed? ==> |img| >= WORD32) &&
      (s.loader.Running? && |img| < SIGN ==> s.loader.kernel == img) &&
      (!Enabled(s, Sending) && !Enabled(s, Receiving) ==> (Done(s, img) <==> |img| < SIGN))
  {
    var start := Line(WriteHeader(0), Matching(idx), [], []);
    InvAtStart(img, idx);
    RunKeepsInv(start, img, run);
    var s := Run(start, img, run);
    if !Enabled(s, Sending) && !Enabled(s, Receiving) {
      StuckMeansDone(s, img);
    }
  }
}
