/** The two-pass builder of ZCL write and report-configuration commands: one scan of the packet
    sizes the buffer, a second one fills it. */
module ZclPacket {
  import opened Bytes

  const CHAR_STR: Byte := 0x42
  const OCTET_STR: Byte := 0x41
  const LONG_OCTET_STR: Byte := 0x43
  const LONG_CHAR_STR: Byte := 0x44
  const STRUCT: Byte := 0x4C

  type U16 = n: int | 0 <= n < 0x1_0000

  function BuildU16(hi: Byte, lo: Byte): U16 {
    0x100 * hi + lo
  }

  /** Values of these types are copied as they are; all others are turned round. */
  predicate KeptAsIs(dataType: Byte) {
    dataType == LONG_CHAR_STR || dataType == LONG_OCTET_STR || dataType == CHAR_STR || dataType == OCTET_STR
    || dataType == STRUCT
  }

  // ---------------------------------------------------------------- byte order

  function Reversed(s: seq<Byte>): (r: seq<Byte>)
    ensures |r| == |s|
    decreases |s|
  {
    if s == [] then [] else [s[|s| - 1]] + Reversed(s[..|s| - 1])
  }

  /** The number bytes spell with the most, or the least, significant one first. */
  function BigEndian(s: seq<Byte>): nat
    decreases |s|
  {
    if s == [] then 0 else 0x100 * BigEndian(s[..|s| - 1]) + s[|s| - 1]
  }

  function LittleEndian(s: seq<Byte>): nat
    decreases |s|
  {
    if s == [] then 0 else s[0] + 0x100 * LittleEndian(s[1..])
  }

  /** Turning the bytes round turns the big-endian number into the little-endian one. */
  lemma {:induction false} ReversedValue(s: seq<Byte>)
    ensures LittleEndian(Reversed(s)) == BigEndian(s)
    decreases |s|
  {
    if s != [] {
      var r := Reversed(s);
      assert r[1..] == Reversed(s[..|s| - 1]);
      ReversedValue(s[..|s| - 1]);
    }
  }

  /** The two bytes of an attribute id, an interval or a timeout come most significant first. */
  lemma BuildU16Is(s: seq<Byte>, at: nat)
    requires at + 2 <= |s|
    ensures BuildU16(s[at], s[at + 1]) == BigEndian(s[at..at + 2])
  {
    var w := s[at..at + 2];
    assert w[..1] == [s[at]] && [s[at]][..0] == [];
    assert BigEndian([s[at]]) == s[at];
  }

  lemma {:induction false} ReversedAt(s: seq<Byte>, k: nat)
    requires k < |s|
    ensures Reversed(s)[k] == s[|s| - 1 - k]
    decreases k
  {
    if k > 0 {
      ReversedAt(s[..|s| - 1], k - 1);
    }
  }

  lemma ReversedIs(s: seq<Byte>, r: seq<Byte>)
    requires |r| == |s| && forall k :: 0 <= k < |s| ==> r[k] == s[|s| - 1 - k]
    ensures r == Reversed(s)
  {
    forall k | 0 <= k < |s|
      ensures r[k] == Reversed(s)[k]
    {
      ReversedAt(s, k);
    }
  }

  /** Turning `first..end` round from both ends: `lo..=hi` is still to do. */
  ghost predicate TurningRound(now: seq<Byte>, was: seq<Byte>, first: nat, end: nat, lo: int, hi: int) {
    && |now| == |was| && first <= end <= |was| && lo + hi == first + end - 1 && first <= lo
    && forall k :: 0 <= k < |was| ==>
         now[k] == was[if first <= k < end && !(lo <= k <= hi) then first + end - 1 - k else k]
  }

  lemma TurnOn(now: seq<Byte>, next: seq<Byte>, was: seq<Byte>, first: nat, end: nat, lo: int, hi: int)
    requires TurningRound(now, was, first, end, lo, hi) && lo < hi
    requires next == now[hi := now[lo]][lo := now[hi]]
    ensures TurningRound(next, was, first, end, lo + 1, hi - 1)
  {
  }

  /** `s` with the `len` bytes at `at` turned round. */
  function Turned(s: seq<Byte>, at: nat, len: nat): (r: seq<Byte>)
    requires at + len <= |s|
    ensures |r| == |s|
  {
    s[..at] + Reversed(s[at..at + len]) + s[at + len..]
  }

  lemma TurnedRound(now: seq<Byte>, was: seq<Byte>, at: nat, len: nat, lo: int, hi: int)
    requires TurningRound(now, was, at, at + len, lo, hi) && lo >= hi
    ensures now == Turned(was, at, len)
  {
    ReversedIs(was[at..at + len], now[at..at + len]);
    assert now == now[..at] + now[at..at + len] + now[at + len..];
  }

  /** The body of the loop: exchange the two ends. */
  method Exchange(buf: array<Byte>, p: nat, q: nat, ghost was: seq<Byte>, ghost first: nat, ghost end: nat)
    requires p < q < buf.Length && TurningRound(buf[..], was, first, end, p, q)
    modifies buf
    ensures TurningRound(buf[..], was, first, end, p + 1, q - 1)
  {
    ghost var now := buf[..];
    var temp := buf[q];
    buf[q] := buf[p];
    buf[p] := temp;
    TurnOn(now, buf[..], was, first, end, p, q);
  }

  /** `ZB_LEBESWAP` on the `len` bytes at `at`. */
  method LeBeSwap(buf: array<Byte>, at: nat, len: nat)
    requires at + len <= buf.Length
    modifies buf
    ensures buf[..] == Turned(old(buf[..]), at, len)
  {
    ghost var was, end := buf[..], at + len;
    var i, half := 0, len / 2;
    while i < half
      invariant 0 <= i <= half
      invariant TurningRound(buf[..], was, at, end, at + i, at + len - i - 1)
    {
      Exchange(buf, at + i, at + len - i - 1, was, at, end);
      i := i + 1;
    }
    TurnedRound(buf[..], was, at, len, at + i, at + len - i - 1);
  }

  /** `s` with `src` copied over it at `at`. */
  function Pasted(s: seq<Byte>, at: nat, src: seq<Byte>): (r: seq<Byte>)
    requires at + |src| <= |s|
    ensures |r| == |s|
  {
    s[..at] + src + s[at + |src|..]
  }

  method MemCpy(buf: array<Byte>, at: nat, src: seq<Byte>)
    requires at + |src| <= buf.Length
    modifies buf
    ensures buf[..] == Pasted(old(buf[..]), at, src)
  {
    ghost var was := buf[..];
    var i := 0;
    while i < |src|
      invariant 0 <= i <= |src|
      invariant buf[..] == Pasted(was, at, src[..i])
    {
      buf[at + i] := src[i];
      assert src[..i + 1] == src[..i] + [src[i]];
      i := i + 1;
    }
    assert src[..i] == src;
  }

  lemma ThreeParts(a: seq<Byte>, b: seq<Byte>, c: seq<Byte>)
    ensures var s := a + b + c;
            s[..|a|] == a && s[|a|..|a| + |b|] == b && s[|a| + |b|..] == c
  {
  }

  /** Copying a stretch in and turning it round puts it there turned round. */
  lemma PastedTurned(s: seq<Byte>, at: nat, src: seq<Byte>, p: seq<Byte>)
    requires at + |src| <= |s| && p == Pasted(s, at, src)
    ensures Turned(p, at, |src|) == Pasted(s, at, Reversed(src))
  {
    ThreeParts(s[..at], src, s[at + |src|..]);
    PartsTurned(p, s[..at], src, s[at + |src|..], at, |src|);
  }

  lemma PartsTurned(p: seq<Byte>, a: seq<Byte>, b: seq<Byte>, c: seq<Byte>, at: nat, len: nat)
    requires at + len <= |p| && p[..at] == a && p[at..at + len] == b && p[at + len..] == c
    ensures Turned(p, at, len) == a + Reversed(b) + c
  {
  }

  // ---------------------------------------------------------------- the write command

  /** `zcl_getAttrSize`: how many bytes a value of this type takes, judged from its first bytes. */
  type AttrSize = (Byte, seq<Byte>) -> nat

  /** One record as the host sends it: attribute, type and value. */
  datatype Wire = Wire(attrID: U16, dataType: Byte, value: seq<Byte>)

  /** `n` records lie in the packet from its start. */
  predicate Parses(size: AttrSize, s: seq<Byte>, n: nat)
    decreases n
  {
    n > 0 ==> 3 <= |s| && 3 + size(s[2], s[3..]) <= |s| && Parses(size, s[3 + size(s[2], s[3..])..], n - 1)
  }

  function First(size: AttrSize, s: seq<Byte>): Wire
    requires 3 <= |s| && 3 + size(s[2], s[3..]) <= |s|
  {
    Wire(BuildU16(s[0], s[1]), s[2], s[3..3 + size(s[2], s[3..])])
  }

  function Parsed(size: AttrSize, s: seq<Byte>, n: nat): (w: seq<Wire>)
    requires Parses(size, s, n)
    ensures |w| == n
    decreases n
  {
    if n == 0 then [] else [First(size, s)] + Parsed(size, s[3 + |First(size, s).value|..], n - 1)
  }

  /** The bytes records take in the packet, and their values alone. */
  function PacketLen(w: seq<Wire>): nat
    decreases |w|
  {
    if w == [] then 0 else 3 + |w[0].value| + PacketLen(w[1..])
  }

  function DataLen(w: seq<Wire>): nat
    decreases |w|
  {
    if w == [] then 0 else |w[0].value| + DataLen(w[1..])
  }

  function Converted(w: Wire): (r: seq<Byte>)
    ensures |r| == |w.value|
  {
    if KeptAsIs(w.dataType) then w.value else Reversed(w.value)
  }

  /** What the data area holds for records `w`. */
  function Area(w: seq<Wire>): (d: seq<Byte>)
    ensures |d| == DataLen(w)
    decreases |w|
  {
    if w == [] then [] else Converted(w[0]) + Area(w[1..])
  }

  /** One record of the command: `at` is where its value starts in the data area. */
  datatype WriteRec = WriteRec(attrID: U16, dataType: Byte, at: nat, len: nat)

  /** The records of the command, pointing into the data area from `at` on. */
  function Recs(w: seq<Wire>, at: nat): (r: seq<WriteRec>)
    ensures |r| == |w|
    decreases |w|
  {
    if w == [] then []
    else [WriteRec(w[0].attrID, w[0].dataType, at, |w[0].value|)] + Recs(w[1..], at + |w[0].value|)
  }

  // ---------------------------------------------------------------- what the second pass builds

  /** The regions the records point to follow each other from `at` to `end`. */
  predicate Tile(recs: seq<WriteRec>, at: nat, end: nat)
    decreases |recs|
  {
    if recs == [] then at == end else recs[0].at == at && Tile(recs[1..], at + recs[0].len, end)
  }

  /** The records' regions fill the data area without a gap, an overlap or an overrun. */
  lemma {:induction false} RecsTile(w: seq<Wire>, at: nat)
    ensures Tile(Recs(w, at), at, at + DataLen(w))
    decreases |w|
  {
    if w != [] {
      RecsTile(w[1..], at + |w[0].value|);
    }
  }

  lemma {:induction false} TileBounds(recs: seq<WriteRec>, at: nat, end: nat, i: nat)
    requires Tile(recs, at, end) && i < |recs|
    ensures at <= recs[i].at && recs[i].at + recs[i].len <= end
    decreases |recs|
  {
    if i > 0 {
      TileBounds(recs[1..], at + recs[0].len, end, i - 1);
    } else {
      TileEnd(recs[1..], at + recs[0].len, end);
    }
  }

  lemma {:induction false} TileEnd(recs: seq<WriteRec>, at: nat, end: nat)
    requires Tile(recs, at, end)
    ensures at <= end
    decreases |recs|
  {
    if recs != [] {
      TileEnd(recs[1..], at + recs[0].len, end);
    }
  }

  /** Different records never share a byte. */
  lemma {:induction false} TileApart(recs: seq<WriteRec>, at: nat, end: nat, i: nat, j: nat)
    requires Tile(recs, at, end) && i < j < |recs|
    ensures recs[i].at + recs[i].len <= recs[j].at
    decreases |recs|
  {
    if i > 0 {
      TileApart(recs[1..], at + recs[0].len, end, i - 1, j - 1);
    } else {
      TileBounds(recs[1..], at + recs[0].len, end, j - 1);
    }
  }

  /** `rec` says what `w` says and points to its value in `area`. */
  predicate Describes(rec: WriteRec, w: Wire, area: seq<Byte>) {
    && rec.attrID == w.attrID && rec.dataType == w.dataType && rec.len == |w.value|
    && rec.at + rec.len <= |area| && area[rec.at..rec.at + rec.len] == Converted(w)
  }

  lemma {:induction false} RecordHolds(w: seq<Wire>, i: nat, before: seq<Byte>, area: seq<Byte>)
    requires i < |w| && area == before + Area(w)
    ensures Describes(Recs(w, |before|)[i], w[i], area)
    decreases i
  {
    var first, rest := Converted(w[0]), Area(w[1..]);
    Associate(before, first, rest, area);
    if i == 0 {
      ThreeParts(before, first, rest);
    } else {
      RecordHolds(w[1..], i - 1, before + first, area);
    }
  }

  lemma Associate(a: seq<Byte>, b: seq<Byte>, c: seq<Byte>, s: seq<Byte>)
    requires s == a + (b + c)
    ensures s == a + b + c
  {
  }

  lemma Worth(rec: WriteRec, w: Wire, area: seq<Byte>)
    requires Describes(rec, w, area)
    ensures var stored, t := area[rec.at..rec.at + rec.len], w.dataType;
            if (0x41 <= t <= 0x44) || t == 0x4C then stored == w.value
            else LittleEndian(stored) == BigEndian(w.value)
  {
    ReversedValue(w.value);
  }

  /** Every value that is not a string or a structure reaches the stack as the little-endian
      form of the number the host sent; the others as they were sent. */
  lemma ValueKept(w: seq<Wire>, i: nat, rec: WriteRec, area: seq<Byte>)
    requires i < |w| && rec == Recs(w, 0)[i] && area == Area(w)
    ensures rec.at + rec.len <= |area| && rec.len == |w[i].value|
    ensures var stored, t := area[rec.at..rec.at + rec.len], w[i].dataType;
            if (0x41 <= t <= 0x44) || t == 0x4C then stored == w[i].value
            else LittleEndian(stored) == BigEndian(w[i].value)
  {
    assert area == [] + area;
    RecordHolds(w, i, [], area);
    Worth(rec, w[i], area);
  }

  /** Where record `i` starts in the packet. */
  function PlaceOf(size: AttrSize, s: seq<Byte>, n: nat, i: nat): nat
    requires Parses(size, s, n) && i < n
    decreases i
  {
    if i == 0 then 0
    else
      var len := 3 + size(s[2], s[3..]);
      len + PlaceOf(size, s[len..], n - 1, i - 1)
  }

  /** Record `w` stands at place `p` of the packet: the id, most significant byte first, the type, and
      as many bytes as a value of that type takes there. */
  predicate StandsAt(size: AttrSize, s: seq<Byte>, p: nat, w: Wire) {
    && p + 3 + |w.value| <= |s| && |w.value| == size(s[p + 2], s[p + 3..])
    && w.attrID == BigEndian(s[p..p + 2]) && w.dataType == s[p + 2] && w.value == s[p + 3..p + 3 + |w.value|]
  }

  lemma FirstStands(size: AttrSize, s: seq<Byte>, n: nat)
    requires n > 0 && Parses(size, s, n)
    ensures StandsAt(size, s, PlaceOf(size, s, n, 0), Parsed(size, s, n)[0])
  {
    BuildU16Is(s, 0);
  }

  lemma StandsShifted(size: AttrSize, s: seq<Byte>, len: nat, p: nat, w: Wire, at: nat)
    requires len <= |s| && StandsAt(size, s[len..], p, w) && at == len + p
    ensures StandsAt(size, s, at, w)
  {
    var n := |w.value|;
    SliceOfSlice(s, len, |s|, p, p + 2);
    SliceOfSlice(s, len, |s|, p + 3, p + 3 + n);
    SliceOfSlice(s, len, |s|, p + 3, |s| - len);
    assert s[len..] == s[len..|s|] && s[len + p + 3..] == s[len..][p + 3..];
  }

  /** Record `i` is what stands at its place in the packet. */
  predicate RecordStands(size: AttrSize, s: seq<Byte>, n: nat, i: nat)
    requires Parses(size, s, n) && i < n
  {
    StandsAt(size, s, PlaceOf(size, s, n, i), Parsed(size, s, n)[i])
  }

  /** The records behind the first. */
  lemma Onward(size: AttrSize, s: seq<Byte>, n: nat, i: nat, len: nat)
    requires Parses(size, s, n) && 0 < i < n && len == 3 + size(s[2], s[3..])
    requires RecordStands(size, s[len..], n - 1, i - 1)
    ensures RecordStands(size, s, n, i)
  {
    var rest := s[len..];
    SameRecord(size, s, n, i, rest);
    StandsShifted(size, s, len, PlaceOf(size, rest, n - 1, i - 1), Parsed(size, s, n)[i], PlaceOf(size, s, n, i));
  }

  lemma SameRecord(size: AttrSize, s: seq<Byte>, n: nat, i: nat, rest: seq<Byte>)
    requires Parses(size, s, n) && 0 < i < n && rest == s[3 + size(s[2], s[3..])..]
    ensures Parsed(size, s, n)[i] == Parsed(size, rest, n - 1)[i - 1]
    ensures PlaceOf(size, s, n, i) == 3 + size(s[2], s[3..]) + PlaceOf(size, rest, n - 1, i - 1)
  {
  }

  lemma {:induction false} RecordRead(size: AttrSize, s: seq<Byte>, n: nat, i: nat)
    requires Parses(size, s, n) && i < n
    ensures RecordStands(size, s, n, i)
    decreases i
  {
    if i == 0 {
      FirstStands(size, s, n);
    } else {
      var len := 3 + size(s[2], s[3..]);
      RecordRead(size, s[len..], n - 1, i - 1);
      Onward(size, s, n, i, len);
    }
  }

  /** `rec` carries the id and the type at place `p` of the packet, and points to the value there. */
  predicate Carries(rec: WriteRec, s: seq<Byte>, p: nat, area: seq<Byte>) {
    && p + 3 + rec.len <= |s| && rec.attrID == BigEndian(s[p..p + 2]) && rec.dataType == s[p + 2]
    && rec.at + rec.len <= |area|
    && var stored, value := area[rec.at..rec.at + rec.len], s[p + 3..p + 3 + rec.len];
       if (0x41 <= rec.dataType <= 0x44) || rec.dataType == 0x4C then stored == value
       else LittleEndian(stored) == BigEndian(value)
  }

  lemma DescribedCarries(size: AttrSize, rec: WriteRec, s: seq<Byte>, p: nat, w: Wire, area: seq<Byte>)
    requires StandsAt(size, s, p, w) && Describes(rec, w, area)
    ensures Carries(rec, s, p, area)
  {
    Worth(rec, w, area);
  }

  /** So does record `i` of the command for the place of record `i` of the packet. */
  lemma CommandRecord(size: AttrSize, s: seq<Byte>, n: nat, i: nat, w: seq<Wire>, area: seq<Byte>)
    requires Parses(size, s, n) && i < n && w == Parsed(size, s, n) && area == Area(w)
    ensures Carries(Recs(w, 0)[i], s, PlaceOf(size, s, n, i), area)
  {
    RecordRead(size, s, n, i);
    assert area == [] + area;
    RecordHolds(w, i, [], area);
    DescribedCarries(size, Recs(w, 0)[i], s, PlaceOf(size, s, n, i), w[i], area);
  }

  // ---------------------------------------------------------------- the code itself

  /** `dataLen += n` in 16 bits. */
  method AddU16(dataLen: U16, n: nat) returns (r: U16)
    ensures dataLen + n < 0x1_0000 ==> r == dataLen + n
  {
    r := (dataLen + n) % 0x1_0000;
  }

  /** Lines 597-609: the first pass, with its 16-bit sum. */
  method Measure(size: AttrSize, s: seq<Byte>, numAttr: Byte) returns (dataLen: U16, ghost end: nat)
    requires Parses(size, s, numAttr) && |s| < 0x1_0000
    ensures dataLen == DataLen(Parsed(size, s, numAttr))
    ensures end == PacketLen(Parsed(size, s, numAttr)) <= |s|
  {
    var w := Parsed(size, s, numAttr);
    var i := 0;
    var pBuf, rest := 0, s;
    dataLen := 0;
    ghost var more := w;
    while i < numAttr
      invariant 0 <= i <= numAttr && pBuf + |rest| == |s| && dataLen <= pBuf
      invariant Parses(size, rest, numAttr - i) && more == Parsed(size, rest, numAttr - i)
      invariant dataLen + DataLen(more) == DataLen(w) && pBuf + PacketLen(more) == PacketLen(w)
    {
      var dataType := rest[2];
      var attrDataLen := size(dataType, rest[3..]);
      rest, pBuf := rest[3 + attrDataLen..], pBuf + 3 + attrDataLen;
      dataLen := AddU16(dataLen, attrDataLen);
      more := more[1..];
      i := i + 1;
    }
    end := pBuf;
  }

  lemma PastedPrefix(s: seq<Byte>, at: nat, src: seq<Byte>)
    requires at + |src| <= |s|
    ensures Pasted(s, at, src)[..at + |src|] == s[..at] + src
  {
  }

  /** Lines 626-631: copy a value behind those already there and turn it round if need be. */
  method PutValue(buf: array<Byte>, at: nat, w: Wire)
    requires at + |w.value| <= buf.Length
    modifies buf
    ensures buf[..][..at + |w.value|] == old(buf[..])[..at] + Converted(w)
  {
    ghost var was := buf[..];
    MemCpy(buf, at, w.value);
    if !KeptAsIs(w.dataType) {
      PastedTurned(was, at, w.value, buf[..]);
      LeBeSwap(buf, at, |w.value|);
      PastedPrefix(was, at, Reversed(w.value));
    } else {
      PastedPrefix(was, at, w.value);
    }
  }

  lemma NextRecord(size: AttrSize, s: seq<Byte>, n: nat, w: seq<Wire>)
    requires n > 0 && Parses(size, s, n) && w == Parsed(size, s, n)
    ensures 3 <= |s| && 3 + size(s[2], s[3..]) <= |s|
    ensures w[0] == First(size, s) && |w[0].value| == size(s[2], s[3..])
    ensures Parses(size, s[3 + |w[0].value|..], n - 1) && w[1..] == Parsed(size, s[3 + |w[0].value|..], n - 1)
  {
  }

  lemma OneLess(w: seq<Wire>, at: nat, recs: seq<WriteRec>, all: seq<WriteRec>, built: seq<Byte>, area: seq<Byte>)
      returns (rec: WriteRec)
    requires w != [] && recs + Recs(w, at) == all && built + Area(w) == area
    ensures rec == WriteRec(w[0].attrID, w[0].dataType, at, |w[0].value|)
    ensures recs + [rec] + Recs(w[1..], at + |w[0].value|) == all
    ensures built + Converted(w[0]) + Area(w[1..]) == area
  {
    rec := WriteRec(w[0].attrID, w[0].dataType, at, |w[0].value|);
    Associate(built, Converted(w[0]), Area(w[1..]), area);
    assert recs + ([rec] + Recs(w[1..], at + |w[0].value|)) == recs + [rec] + Recs(w[1..], at + |w[0].value|);
  }

  /** The command is built for all records but `more`, `pBuf` bytes of the data area filled. */
  predicate Filling(recs: seq<WriteRec>, all: seq<WriteRec>, pBuf: nat, data: seq<Byte>, area: seq<Byte>,
                    more: seq<Wire>)
  {
    && pBuf + DataLen(more) == |data| && recs + Recs(more, pBuf) == all && data[..pBuf] + Area(more) == area
  }

  lemma FillingStarts(data: seq<Byte>, w: seq<Wire>)
    requires |data| == DataLen(w)
    ensures Filling([], Recs(w, 0), 0, data, Area(w), w)
  {
    assert data[..0] == [] && [] + Area(w) == Area(w) && [] + Recs(w, 0) == Recs(w, 0);
  }

  lemma FillingEnds(recs: seq<WriteRec>, all: seq<WriteRec>, pBuf: nat, data: seq<Byte>, area: seq<Byte>)
    requires Filling(recs, all, pBuf, data, area, [])
    ensures recs == all && data == area
  {
    assert data[..pBuf] == data && data + [] == data && recs + [] == recs;
  }

  /** Lines 622-635: one record. */
  method PutRecord(data: array<Byte>, pBuf: nat, rec: Wire, recs: seq<WriteRec>,
                   ghost all: seq<WriteRec>, ghost area: seq<Byte>, ghost more: seq<Wire>)
      returns (longer: seq<WriteRec>)
    requires more != [] && rec == more[0] && Filling(recs, all, pBuf, data[..], area, more)
    modifies data
    ensures Filling(longer, all, pBuf + |rec.value|, data[..], area, more[1..])
  {
    ghost var built := data[..][..pBuf];
    PutValue(data, pBuf, rec);
    ghost var r := OneLess(more, pBuf, recs, all, built, area);
    longer := recs + [WriteRec(rec.attrID, rec.dataType, pBuf, |rec.value|)];
  }

  /** `pCmd` stands before the records `more`, with `left` bytes behind them. */
  predicate Reading(size: AttrSize, pCmd: seq<Byte>, n: nat, more: seq<Wire>, left: nat) {
    Parses(size, pCmd, n) && more == Parsed(size, pCmd, n) && |pCmd| == PacketLen(more) + left
  }

  /** Lines 622-625: the fields of one record. */
  method ReadRecord(size: AttrSize, pCmd: seq<Byte>, ghost n: nat, ghost more: seq<Wire>, ghost left: nat)
      returns (rec: Wire, rest: seq<Byte>)
    requires n > 0 && Reading(size, pCmd, n, more, left)
    ensures more != [] && rec == more[0] && Reading(size, rest, n - 1, more[1..], left)
  {
    NextRecord(size, pCmd, n, more);
    var attrDataLen := size(pCmd[2], pCmd[3..]);
    rec := Wire(BuildU16(pCmd[0], pCmd[1]), pCmd[2], pCmd[3..3 + attrDataLen]);
    rest := pCmd[3 + attrDataLen..];
  }

  /** Lines 596-636: size the buffer in one scan, fill it in a second one. */
  method BuildWrite(size: AttrSize, s: seq<Byte>, numAttr: Byte)
      returns (recs: seq<WriteRec>, data: array<Byte>, ghost scanned: nat, ghost read: nat)
    requires Parses(size, s, numAttr) && |s| < 0x1_0000
    ensures fresh(data) && data[..] == Area(Parsed(size, s, numAttr)) && recs == Recs(Parsed(size, s, numAttr), 0)
    ensures scanned == read == PacketLen(Parsed(size, s, numAttr))
  {
    ghost var w := Parsed(size, s, numAttr);
    var dataLen;
    dataLen, scanned := Measure(size, s, numAttr);
    data := new Byte[dataLen];
    recs, read := Fill(size, s, numAttr, data, w, Recs(w, 0), Area(w), |s| - scanned);
  }

  /** Lines 619-636: one time round the second loop. */
  method FillOne(size: AttrSize, pCmd: seq<Byte>, data: array<Byte>, pBuf: nat, recs: seq<WriteRec>, ghost n: nat,
                 ghost all: seq<WriteRec>, ghost area: seq<Byte>, ghost more: seq<Wire>, ghost left: nat)
      returns (rest: seq<Byte>, next: nat, longer: seq<WriteRec>, ghost fewer: seq<Wire>)
    requires n > 0 && Reading(size, pCmd, n, more, left) && Filling(recs, all, pBuf, data[..], area, more)
    modifies data
    ensures Reading(size, rest, n - 1, fewer, left) && Filling(longer, all, next, data[..], area, fewer)
  {
    var rec;
    rec, rest := ReadRecord(size, pCmd, n, more, left);
    longer := PutRecord(data, pBuf, rec, recs, all, area, more);
    next, fewer := pBuf + |rec.value|, more[1..];
  }

  lemma ReadingEnds(size: AttrSize, pCmd: seq<Byte>, more: seq<Wire>, left: nat)
    requires Reading(size, pCmd, 0, more, left)
    ensures more == [] && |pCmd| == left
  {
  }

  method Fill(size: AttrSize, s: seq<Byte>, numAttr: Byte, data: array<Byte>,
              ghost w: seq<Wire>, ghost all: seq<WriteRec>, ghost area: seq<Byte>, ghost left: nat)
      returns (recs: seq<WriteRec>, ghost read: nat)
    requires Reading(size, s, numAttr, w, left) && data.Length == DataLen(w)
    requires all == Recs(w, 0) && area == Area(w)
    modifies data
    ensures recs == all && data[..] == area && read == |s| - left
  {
    ghost var more := w;
    var i, pBuf: nat, pCmd := 0, 0, s;
    recs := [];
    FillingStarts(data[..], w);
    while i < numAttr
      invariant 0 <= i <= numAttr && Reading(size, pCmd, numAttr - i, more, left)
      invariant Filling(recs, all, pBuf, data[..], area, more)
    {
      pCmd, pBuf, recs, more := FillOne(size, pCmd, data, pBuf, recs, numAttr - i, all, area, more, left);
      i := i + 1;
    }
    ReadingEnds(size, pCmd, more, left);
    FillingEnds(recs, all, pBuf, data[..], area);
    read := |s| - |pCmd|;
  }
}
