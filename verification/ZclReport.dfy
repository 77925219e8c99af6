/** The report-configuration command: its two scans agree on the buffer they share unless a
    sent record of a discrete type comes before the last. */
module ZclReport {
  import opened Bytes
  import opened ZclPacket

  const SEND_REPORTS: Byte := 0

  /** `zcl_analogDataType` and `zcl_getDataTypeLen`. */
  datatype Types = Types(analog: Byte -> bool, len: Byte -> Byte)

  /** What either scan looks at to find out how long a record is. */
  predicate Headed(s: seq<Byte>) {
    0 < |s| && (s[0] == SEND_REPORTS ==> 4 <= |s|)
  }

  /** The length of the reportable change of the record at the start of `s`. */
  function Change(t: Types, s: seq<Byte>): Byte
    requires Headed(s)
  {
    if s[0] == SEND_REPORTS && t.analog(s[3]) then t.len(s[3]) else 0
  }

  predicate DiscreteSent(t: Types, s: seq<Byte>)
    requires Headed(s)
  {
    s[0] == SEND_REPORTS && !t.analog(s[3])
  }

  /** What the second scan takes for a record, and what the first one does. */
  function Step2(t: Types, s: seq<Byte>): (n: nat)
    requires Headed(s)
    ensures s[0] == SEND_REPORTS ==> 8 <= n
    ensures s[0] != SEND_REPORTS ==> n == 5
  {
    if s[0] == SEND_REPORTS then 8 + Change(t, s) else 5
  }

  function Step1(t: Types, s: seq<Byte>): nat
    requires Headed(s)
  {
    if DiscreteSent(t, s) then Step2(t, s) + 1 else Step2(t, s)
  }

  /** What is left for a scan that has moved on by `step`, which may be past the end. */
  function Behind(s: seq<Byte>, step: nat): seq<Byte> {
    if step <= |s| then s[step..] else []
  }

  /** Both scans read inside the receive buffer for `n` records. The first one only looks at how long
      they are; the second one reads all of each. */
  predicate Readable(t: Types, s: seq<Byte>, n: nat) {
    Readable1(t, s, n) && Readable2(t, s, n)
  }

  predicate Readable1(t: Types, s: seq<Byte>, n: nat)
    decreases n
  {
    n > 0 ==> Headed(s) && Readable1(t, Behind(s, Step1(t, s)), n - 1)
  }

  predicate Readable2(t: Types, s: seq<Byte>, n: nat)
    decreases n
  {
    n > 0 ==> Headed(s) && Step2(t, s) <= |s| && Readable2(t, s[Step2(t, s)..], n - 1)
  }

  /** Where the two scans stand after `k` records. */
  function Pos1(t: Types, s: seq<Byte>, n: nat, k: nat): nat
    requires Readable1(t, s, n) && k <= n
    decreases n
  {
    if k == 0 then 0 else Step1(t, s) + Pos1(t, Behind(s, Step1(t, s)), n - 1, k - 1)
  }

  function Pos2(t: Types, s: seq<Byte>, n: nat, k: nat): nat
    requires Readable2(t, s, n) && k <= n
    decreases n
  {
    if k == 0 then 0 else Step2(t, s) + Pos2(t, s[Step2(t, s)..], n - 1, k - 1)
  }

  /** The bytes of data the first scan counts, and those the second one writes. */
  function Counted(t: Types, s: seq<Byte>, n: nat): nat
    requires Readable1(t, s, n)
    decreases n
  {
    if n == 0 then 0 else Change(t, s) + Counted(t, Behind(s, Step1(t, s)), n - 1)
  }

  function Values(t: Types, s: seq<Byte>, n: nat): seq<Wire>
    requires Readable2(t, s, n)
    decreases n
  {
    if n == 0 then []
    else
      var rest := Values(t, s[Step2(t, s)..], n - 1);
      if s[0] == SEND_REPORTS && t.analog(s[3]) then [Wire(BuildU16(s[1], s[2]), s[3], s[8..8 + Change(t, s)])] + rest
      else rest
  }

  /** No sent record of a discrete type among the first `n`, as the second scan reads them. */
  predicate AllAnalog(t: Types, s: seq<Byte>, n: nat)
    requires Readable2(t, s, n)
    decreases n
  {
    n > 0 ==> !DiscreteSent(t, s) && AllAnalog(t, s[Step2(t, s)..], n - 1)
  }

  // ---------------------------------------------------------------- when the scans agree

  /** The same for all records but the last. */
  predicate AnalogBeforeLast(t: Types, s: seq<Byte>, n: nat)
    requires Readable2(t, s, n)
    decreases n
  {
    n > 1 ==> !DiscreteSent(t, s) && AnalogBeforeLast(t, s[Step2(t, s)..], n - 1)
  }

  ghost predicate InStep(t: Types, s: seq<Byte>, n: nat)
    requires Readable(t, s, n)
  {
    forall k :: 0 <= k <= n ==> Pos1(t, s, n, k) == Pos2(t, s, n, k)
  }

  /** The scans stand at the same place before every record, and after the last, exactly if no
      sent record is of a discrete type. */
  lemma {:induction false} InStepIffAnalog(t: Types, s: seq<Byte>, n: nat)
    requires Readable(t, s, n)
    ensures InStep(t, s, n) <==> AllAnalog(t, s, n)
    decreases n
  {
    if n > 0 {
      if DiscreteSent(t, s) {
        assert Pos1(t, s, n, 1) != Pos2(t, s, n, 1);
      } else {
        var rest, m := s[Step2(t, s)..], n - 1;
        InStepIffAnalog(t, rest, m);
        forall k | 0 < k <= n
          ensures Pos1(t, s, n, k) == Step2(t, s) + Pos1(t, rest, m, k - 1)
          ensures Pos2(t, s, n, k) == Step2(t, s) + Pos2(t, rest, m, k - 1)
        {
        }
        if InStep(t, s, n) {
          forall k | 0 <= k <= m
            ensures Pos1(t, rest, m, k) == Pos2(t, rest, m, k)
          {
            assert Pos1(t, s, n, k + 1) == Pos2(t, s, n, k + 1);
          }
        }
      }
    }
  }

  /** Such a list can be read by the first scan as soon as the second one can read it, and the buffer
      is sized for exactly what the second scan writes. */
  lemma {:induction false} SizedExactly(t: Types, s: seq<Byte>, n: nat)
    requires Readable2(t, s, n) && AnalogBeforeLast(t, s, n)
    ensures Readable1(t, s, n) && Counted(t, s, n) == DataLen(Values(t, s, n))
    decreases n
  {
    if n > 1 {
      SizedExactly(t, s[Step2(t, s)..], n - 1);
    }
  }

  /** Otherwise it need not be: behind a sent record of a discrete type the first scan reads
      one byte off, and here counts nothing for a record whose change the second one stores. */
  lemma SizedShort(t: Types, id: Byte, d: Byte, a: Byte, change: seq<Byte>)
    requires id != SEND_REPORTS && !t.analog(d) && t.analog(a) && |change| == t.len(a) > 0
    ensures var s := [SEND_REPORTS, 0, 0, d, 0, 0, 0, 0] + ([SEND_REPORTS, id, 0, a, 0, 0, 0, 0] + change);
            && Readable(t, s, 2)
            && Counted(t, s, 2) == 0 < DataLen(Values(t, s, 2)) == |change|
  {
    var second := [SEND_REPORTS, id, 0, a, 0, 0, 0, 0] + change;
    var s := [SEND_REPORTS, 0, 0, d, 0, 0, 0, 0] + second;
    assert s[8..] == second && Behind(s, 9) == second[1..];
    assert second[1..][0] == id;
  }

  /** However the command goes on for one more record behind its first `m`, the buffer is sized
      for exactly what the second scan writes. */
  ghost predicate SafeToExtend(t: Types, s: seq<Byte>, m: nat)
    requires Readable2(t, s, m)
  {
    var pos := Pos2(t, s, m, m);
    forall r: seq<Byte> :: Agrees(s, r, pos) && Readable(t, r, m + 1) ==>
      Counted(t, r, m + 1) == DataLen(Values(t, r, m + 1))
  }

  /** The first `pos` bytes are the same. */
  predicate Agrees(s: seq<Byte>, r: seq<Byte>, pos: nat) {
    pos <= |s| && pos <= |r| && s[..pos] == r[..pos]
  }

  lemma AgreesOn(s: seq<Byte>, r: seq<Byte>, step: nat, pos: nat)
    requires Agrees(s, r, pos) && step <= pos
    ensures Agrees(s[step..], r[step..], pos - step)
    ensures forall k :: 0 <= k < pos ==> s[k] == r[k]
  {
    forall k | 0 <= k < pos
      ensures s[k] == r[k]
    {
      assert s[..pos][k] == r[..pos][k];
    }
  }

  /** A record that both have. */
  lemma SameRecord(t: Types, s: seq<Byte>, r: seq<Byte>, step: nat, pos: nat)
    requires Agrees(s, r, pos) && Headed(s) && step == Step2(t, s) <= pos
    ensures Headed(r) && Step2(t, r) == step && DiscreteSent(t, r) == DiscreteSent(t, s)
    ensures Agrees(s[step..], r[step..], pos - step)
  {
    AgreesOn(s, r, step, pos);
    assert s[0] == r[0] && (s[0] == SEND_REPORTS ==> s[3] == r[3]);
  }

  lemma {:induction false} AnalogCarriesOver(t: Types, s: seq<Byte>, r: seq<Byte>, m: nat)
    requires Readable2(t, s, m) && AllAnalog(t, s, m) && Agrees(s, r, Pos2(t, s, m, m)) && Readable2(t, r, m + 1)
    ensures AnalogBeforeLast(t, r, m + 1)
    decreases m
  {
    if m > 0 {
      var step := Step2(t, s);
      SameRecord(t, s, r, step, Pos2(t, s, m, m));
      AnalogCarriesOver(t, s[step..], r[step..], m - 1);
    }
  }

  /** A record that the first scan, one byte off, counts nothing for. */
  predicate Misread(t: Types, tail: seq<Byte>, a: Byte) {
    && t.analog(a) && t.len(a) > 0 && 8 + t.len(a) <= |tail|
    && tail[0] == SEND_REPORTS && tail[1] != SEND_REPORTS && tail[3] == a
  }

  /** `r` goes on from the first `m` records of `s` with one for which the buffer is too small. */
  predicate GoesWrong(t: Types, s: seq<Byte>, m: nat, r: seq<Byte>)
    requires Readable2(t, s, m)
  {
    && Agrees(s, r, Pos2(t, s, m, m)) && Readable(t, r, m + 1)
    && Counted(t, r, m + 1) < DataLen(Values(t, r, m + 1))
  }

  lemma WrongHere(t: Types, s: seq<Byte>, tail: seq<Byte>, a: Byte) returns (r: seq<Byte>)
    requires Readable2(t, s, 1) && DiscreteSent(t, s) && Misread(t, tail, a)
    ensures GoesWrong(t, s, 1, r)
  {
    r := s[..8] + tail;
    assert r[8..] == tail && Behind(r, 9) == tail[1..];
    assert Pos2(t, s, 1, 1) == 8;
  }

  /** A record in front that both scans take alike. */
  lemma Preceded(t: Types, s: seq<Byte>, step: nat, n: nat, rest: seq<Byte>) returns (r: seq<Byte>)
    requires Headed(s) && step == Step2(t, s) <= |s| && !DiscreteSent(t, s) && Readable(t, rest, n)
    ensures r == s[..step] + rest && Readable(t, r, n + 1)
    ensures Counted(t, r, n + 1) == Change(t, s) + Counted(t, rest, n)
    ensures DataLen(Values(t, r, n + 1)) == Change(t, s) + DataLen(Values(t, rest, n))
  {
    r := s[..step] + rest;
    assert Behind(r, step) == r[step..] == rest && Headed(r);
    assert Change(t, r) == Change(t, s) && Step1(t, r) == Step2(t, r) == step;
  }

  /** Behind a record that both scans take alike. */
  lemma WrongFurther(t: Types, s: seq<Byte>, m: nat, rest: seq<Byte>) returns (r: seq<Byte>)
    requires m > 0 && Readable2(t, s, m) && !DiscreteSent(t, s) && GoesWrong(t, s[Step2(t, s)..], m - 1, rest)
    ensures GoesWrong(t, s, m, r)
  {
    r := WrongBehind(t, s, m, Step2(t, s), Pos2(t, s[Step2(t, s)..], m - 1, m - 1), rest);
  }

  lemma WrongBehind(t: Types, s: seq<Byte>, m: nat, step: nat, pos: nat, rest: seq<Byte>) returns (r: seq<Byte>)
    requires m > 0 && Readable2(t, s, m) && !DiscreteSent(t, s) && step == Step2(t, s)
    requires Pos2(t, s, m, m) == step + pos && Agrees(s[step..], rest, pos)
    requires Readable(t, rest, m) && Counted(t, rest, m) < DataLen(Values(t, rest, m))
    ensures GoesWrong(t, s, m, r)
  {
    r := Preceded(t, s, step, m, rest);
    ExtendedAgrees(s, rest, step, pos, r, Pos2(t, s, m, m));
    Wrong(t, s, m, r);
  }

  lemma Wrong(t: Types, s: seq<Byte>, m: nat, r: seq<Byte>)
    requires Readable2(t, s, m) && Agrees(s, r, Pos2(t, s, m, m))
    requires Readable(t, r, m + 1) && Counted(t, r, m + 1) < DataLen(Values(t, r, m + 1))
    ensures GoesWrong(t, s, m, r)
  {
  }

  /** Such a record behind `m` of which only the last is a sent one of a discrete type. */
  lemma {:induction false} ExtendedShort(t: Types, s: seq<Byte>, m: nat, tail: seq<Byte>, a: Byte)
      returns (r: seq<Byte>)
    requires Readable2(t, s, m) && AnalogBeforeLast(t, s, m) && !AllAnalog(t, s, m) && Misread(t, tail, a)
    ensures GoesWrong(t, s, m, r)
    decreases m
  {
    if m == 1 {
      r := WrongHere(t, s, tail, a);
    } else {
      var rest := ExtendedShort(t, s[Step2(t, s)..], m - 1, tail, a);
      r := WrongFurther(t, s, m, rest);
    }
  }

  lemma ExtendedAgrees(s: seq<Byte>, rest: seq<Byte>, step: nat, pos: nat, r: seq<Byte>, at: nat)
    requires step <= |s| && Agrees(s[step..], rest, pos) && r == s[..step] + rest && at == step + pos
    ensures Agrees(s, r, at)
  {
    forall k | 0 <= k < step + pos
      ensures s[k] == r[k]
    {
      if k >= step {
        assert s[step..][..pos][k - step] == rest[..pos][k - step];
      }
    }
  }

  /** So a command can go on safely exactly until its first sent record of a discrete type. */
  lemma SafeToExtendIff(t: Types, s: seq<Byte>, m: nat, a: Byte)
    requires Readable2(t, s, m) && AnalogBeforeLast(t, s, m) && t.analog(a) && t.len(a) > 0
    ensures SafeToExtend(t, s, m) <==> AllAnalog(t, s, m)
  {
    var pos := Pos2(t, s, m, m);
    if AllAnalog(t, s, m) {
      forall r: seq<Byte> | Agrees(s, r, pos) && Readable(t, r, m + 1)
        ensures Counted(t, r, m + 1) == DataLen(Values(t, r, m + 1))
      {
        AnalogCarriesOver(t, s, r, m);
        SizedExactly(t, r, m + 1);
      }
    } else {
      var change: seq<Byte> := seq(t.len(a), _ => 0);
      var tail := [SEND_REPORTS, 1, 0, a, 0, 0, 0, 0] + change;
      var r := ExtendedShort(t, s, m, tail, a);
    }
  }

  // ---------------------------------------------------------------- the code itself

  /** A record of the command; a sent one of an analog type points to its change at `at`. */
  datatype CfgRec =
    | Sends(attrID: U16, dataType: Byte, minInt: U16, maxInt: U16, at: nat, len: Byte)
    | Receives(direction: Byte, attrID: U16, timeout: U16)

  function FirstCfg(t: Types, s: seq<Byte>, at: nat): CfgRec
    requires Headed(s) && Step2(t, s) <= |s|
  {
    if s[0] == SEND_REPORTS then
      Sends(BuildU16(s[1], s[2]), s[3], BuildU16(s[4], s[5]), BuildU16(s[6], s[7]), at, Change(t, s))
    else Receives(s[0], BuildU16(s[1], s[2]), BuildU16(s[3], s[4]))
  }

  function Cfgs(t: Types, s: seq<Byte>, n: nat, at: nat): (recs: seq<CfgRec>)
    requires Readable2(t, s, n)
    ensures |recs| == n
    decreases n
  {
    if n == 0 then [] else [FirstCfg(t, s, at)] + Cfgs(t, s[Step2(t, s)..], n - 1, at + Change(t, s))
  }

  /** Lines 643-665: the first scan. */
  method Measure(t: Types, s: seq<Byte>, numAttr: Byte) returns (dataLen: U16)
    requires Readable1(t, s, numAttr)
    ensures dataLen == Counted(t, s, numAttr)
  {
    var i, pBuf := 0, s;
    dataLen := 0;
    while i < numAttr
      invariant 0 <= i <= numAttr && Readable1(t, pBuf, numAttr - i) && dataLen <= 255 * i
      invariant dataLen + Counted(t, pBuf, numAttr - i) == Counted(t, s, numAttr)
    {
      var direction := pBuf[0];
      if direction == SEND_REPORTS {
        var dataType := pBuf[3];
        if t.analog(dataType) {
          dataLen := AddU16(dataLen, t.len(dataType));
          pBuf := Behind(pBuf, 8 + t.len(dataType));
        } else {
          pBuf := Behind(pBuf, 9);
        }
      } else {
        pBuf := Behind(pBuf, 5);
      }
      i := i + 1;
    }
  }

  /** What is still to build comes behind what has been built. */
  predicate Building(t: Types, pCmd: seq<Byte>, n: nat, pBuf: nat, recs: seq<CfgRec>, all: seq<CfgRec>,
                     data: seq<Byte>, area: seq<Byte>)
  {
    && Readable2(t, pCmd, n) && pBuf + DataLen(Values(t, pCmd, n)) <= |data|
    && recs + Cfgs(t, pCmd, n, pBuf) == all
    && data[..pBuf] + Area(Values(t, pCmd, n)) == area
  }

  lemma BuildingStarts(t: Types, s: seq<Byte>, n: nat, data: seq<Byte>)
    requires Readable2(t, s, n) && DataLen(Values(t, s, n)) <= |data|
    ensures Building(t, s, n, 0, [], Cfgs(t, s, n, 0), data, Area(Values(t, s, n)))
  {
    var area, all := Area(Values(t, s, n)), Cfgs(t, s, n, 0);
    assert data[..0] == [] && [] + area == area && [] + all == all;
  }

  lemma BuildingEnds(t: Types, pCmd: seq<Byte>, pBuf: nat, recs: seq<CfgRec>, all: seq<CfgRec>,
                     data: seq<Byte>, area: seq<Byte>)
    requires Building(t, pCmd, 0, pBuf, recs, all, data, area)
    ensures recs == all && |area| <= |data| && data[..|area|] == area
  {
    assert data[..pBuf] + [] == data[..pBuf] && recs + [] == recs;
  }

  lemma RecordAdded(recs: seq<CfgRec>, rec: CfgRec, more: seq<CfgRec>, all: seq<CfgRec>)
    requires recs + ([rec] + more) == all
    ensures recs + [rec] + more == all
  {
  }

  /** Lines 689-695: store the change of an analog record. */
  method PutChange(data: array<Byte>, pBuf: nat, w: Wire, ghost fewer: seq<Wire>, ghost area: seq<Byte>)
    requires pBuf + |w.value| + DataLen(fewer) <= data.Length && data[..][..pBuf] + Area([w] + fewer) == area
    modifies data
    ensures data[..][..pBuf + |w.value|] + Area(fewer) == area
  {
    ghost var built := data[..][..pBuf];
    assert ([w] + fewer)[1..] == fewer;
    PutValue(data, pBuf, w);
    Associate(built, Converted(w), Area(fewer), area);
  }

  predicate HasChange(t: Types, s: seq<Byte>)
    requires Headed(s) && Step2(t, s) <= |s|
  {
    s[0] == SEND_REPORTS && t.analog(s[3])
  }

  /** A record without a change leaves the data area as it is. */
  lemma PlainOn(t: Types, pCmd: seq<Byte>, n: nat, pBuf: nat, recs: seq<CfgRec>, all: seq<CfgRec>,
                data: seq<Byte>, area: seq<Byte>)
    requires n > 0 && Building(t, pCmd, n, pBuf, recs, all, data, area) && !HasChange(t, pCmd)
    ensures Building(t, pCmd[Step2(t, pCmd)..], n - 1, pBuf, recs + [FirstCfg(t, pCmd, pBuf)], all, data, area)
  {
    RecordAdded(recs, FirstCfg(t, pCmd, pBuf), Cfgs(t, pCmd[Step2(t, pCmd)..], n - 1, pBuf), all);
  }

  /** What a record with a change adds. */
  lemma ChangeParts(t: Types, pCmd: seq<Byte>, n: nat, pBuf: nat,
                    longer: seq<CfgRec>, recs: seq<CfgRec>, all: seq<CfgRec>,
                    data: seq<Byte>, area: seq<Byte>)
      returns (w: Wire, rest: seq<Byte>, fewer: seq<Wire>)
    requires n > 0 && Building(t, pCmd, n, pBuf, recs, all, data, area) && HasChange(t, pCmd)
    requires longer == recs + [FirstCfg(t, pCmd, pBuf)]
    ensures w == Wire(BuildU16(pCmd[1], pCmd[2]), pCmd[3], pCmd[8..8 + Change(t, pCmd)])
    ensures rest == pCmd[8 + Change(t, pCmd)..] && Readable2(t, rest, n - 1) && fewer == Values(t, rest, n - 1)
    ensures pBuf + |w.value| + DataLen(fewer) <= |data| && data[..pBuf] + Area([w] + fewer) == area
    ensures longer + Cfgs(t, rest, n - 1, pBuf + |w.value|) == all
  {
    w := Wire(BuildU16(pCmd[1], pCmd[2]), pCmd[3], pCmd[8..8 + Change(t, pCmd)]);
    rest := pCmd[8 + Change(t, pCmd)..];
    fewer := Values(t, rest, n - 1);
    assert ([w] + fewer)[1..] == fewer;
    RecordAdded(recs, FirstCfg(t, pCmd, pBuf), Cfgs(t, rest, n - 1, pBuf + Change(t, pCmd)), all);
  }

  lemma ChangeOn(t: Types, rest: seq<Byte>, n: nat, next: nat, longer: seq<CfgRec>, all: seq<CfgRec>, data: seq<Byte>,
                 area: seq<Byte>, fewer: seq<Wire>)
    requires Readable2(t, rest, n) && fewer == Values(t, rest, n) && next + DataLen(fewer) <= |data|
    requires longer + Cfgs(t, rest, n, next) == all && data[..next] + Area(fewer) == area
    ensures Building(t, rest, n, next, longer, all, data, area)
  {
  }

  /** Lines 688-689 and 697-698: the change and what lies behind it. */
  method ReadChange(t: Types, pCmd: seq<Byte>, ghost w: Wire, ghost more: seq<Byte>)
      returns (rec: Wire, rest: seq<Byte>)
    requires Headed(pCmd) && 8 + Change(t, pCmd) <= |pCmd| && HasChange(t, pCmd)
    requires w == Wire(BuildU16(pCmd[1], pCmd[2]), pCmd[3], pCmd[8..8 + Change(t, pCmd)])
    requires more == pCmd[8 + Change(t, pCmd)..]
    ensures rec == w && rest == more
  {
    var len := t.len(pCmd[3]);
    rec := Wire(BuildU16(pCmd[1], pCmd[2]), pCmd[3], pCmd[8..8 + len]);
    rest := pCmd[8 + len..];
  }

  /** Lines 687-699: a sent record of an analog type. */
  method BuildChange(t: Types, pCmd: seq<Byte>, data: array<Byte>, pBuf: nat, recs: seq<CfgRec>,
                     ghost n: nat, ghost all: seq<CfgRec>, ghost area: seq<Byte>)
      returns (rest: seq<Byte>, next: nat)
    requires n > 0 && Building(t, pCmd, n, pBuf, recs, all, data[..], area) && HasChange(t, pCmd)
    modifies data
    ensures Building(t, rest, n - 1, next, recs + [FirstCfg(t, pCmd, pBuf)], all, data[..], area)
  {
    ghost var longer := recs + [FirstCfg(t, pCmd, pBuf)];
    ghost var w, more, fewer := ChangeParts(t, pCmd, n, pBuf, longer, recs, all, data[..], area);
    var rec;
    rec, rest := ReadChange(t, pCmd, w, more);
    next := pBuf + |rec.value|;
    PutChange(data, pBuf, rec, fewer, area);
    ChangeOn(t, rest, n - 1, next, longer, all, data[..], area, fewer);
  }

  /** Lines 675-704: one time round the second scan. */
  method BuildOne(t: Types, pCmd: seq<Byte>, data: array<Byte>, pBuf: nat, recs: seq<CfgRec>,
                  ghost n: nat, ghost all: seq<CfgRec>, ghost area: seq<Byte>)
      returns (rest: seq<Byte>, next: nat, longer: seq<CfgRec>)
    requires n > 0 && Building(t, pCmd, n, pBuf, recs, all, data[..], area)
    modifies data
    ensures Building(t, rest, n - 1, next, longer, all, data[..], area)
  {
    longer := recs + [FirstCfg(t, pCmd, pBuf)];
    if pCmd[0] == SEND_REPORTS && t.analog(pCmd[3]) {
      rest, next := BuildChange(t, pCmd, data, pBuf, recs, n, all, area);
    } else {
      PlainOn(t, pCmd, n, pBuf, recs, all, data[..], area);
      rest, next := pCmd[if pCmd[0] == SEND_REPORTS then 8 else 5..], pBuf;
    }
  }

  /** Lines 642-705: size the buffer in one scan, fill it in a second one, for any list for which the
      buffer is large enough. */
  method BuildReport(t: Types, s: seq<Byte>, numAttr: Byte) returns (recs: seq<CfgRec>, data: array<Byte>)
    requires Readable(t, s, numAttr) && DataLen(Values(t, s, numAttr)) <= Counted(t, s, numAttr)
    ensures fresh(data) && data.Length == Counted(t, s, numAttr) && recs == Cfgs(t, s, numAttr, 0)
    ensures data[..DataLen(Values(t, s, numAttr))] == Area(Values(t, s, numAttr))
  {
    var dataLen := Measure(t, s, numAttr);
    data := new Byte[dataLen];
    recs := Build(t, s, numAttr, data, Cfgs(t, s, numAttr, 0), Area(Values(t, s, numAttr)));
  }

  method Build(t: Types, s: seq<Byte>, numAttr: Byte, data: array<Byte>, ghost all: seq<CfgRec>, ghost area: seq<Byte>)
      returns (recs: seq<CfgRec>)
    requires Readable2(t, s, numAttr) && DataLen(Values(t, s, numAttr)) <= data.Length
    requires all == Cfgs(t, s, numAttr, 0) && area == Area(Values(t, s, numAttr))
    modifies data
    ensures recs == all && |area| <= data.Length && data[..][..|area|] == area
  {
    var i, pBuf: nat, pCmd := 0, 0, s;
    recs := [];
    BuildingStarts(t, s, numAttr, data[..]);
    while i < numAttr
      invariant 0 <= i <= numAttr && Building(t, pCmd, numAttr - i, pBuf, recs, all, data[..], area)
    {
      pCmd, pBuf, recs := BuildOne(t, pCmd, data, pBuf, recs, numAttr - i, all, area);
      i := i + 1;
    }
    BuildingEnds(t, pCmd, pBuf, recs, all, data[..], area);
  }

  /** The changes the records point to fill the data area exactly: those with a change follow
      each other from `at` to `end`. */
  predicate Tiled(recs: seq<CfgRec>, at: nat, end: nat)
    decreases |recs|
  {
    if recs == [] then at == end
    else if recs[0].Sends? then recs[0].at == at && Tiled(recs[1..], at + recs[0].len, end)
    else Tiled(recs[1..], at, end)
  }

  lemma {:induction false} CfgsTile(t: Types, s: seq<Byte>, n: nat, at: nat)
    requires Readable2(t, s, n)
    ensures Tiled(Cfgs(t, s, n, at), at, at + DataLen(Values(t, s, n)))
    decreases n
  {
    if n > 0 {
      CfgsTile(t, s[Step2(t, s)..], n - 1, at + Change(t, s));
    }
  }

  /** `rec` says what stands at place `p` of the packet, most significant bytes first. */
  predicate CfgStands(t: Types, s: seq<Byte>, p: nat, rec: CfgRec) {
    && p + 5 <= |s| && rec.attrID == BigEndian(s[p + 1..p + 3])
    && match rec
       case Sends(_, dataType, minInt, maxInt, _, len) =>
         && s[p] == 0 && p + 8 + len <= |s| && dataType == s[p + 3]
         && minInt == BigEndian(s[p + 4..p + 6]) && maxInt == BigEndian(s[p + 6..p + 8])
         && len == if t.analog(s[p + 3]) then t.len(s[p + 3]) else 0
       case Receives(direction, _, timeout) =>
         s[p] != 0 && direction == s[p] && timeout == BigEndian(s[p + 3..p + 5])
  }

  lemma FirstStands(t: Types, s: seq<Byte>, at: nat)
    requires Headed(s) && Step2(t, s) <= |s|
    ensures CfgStands(t, s, 0, FirstCfg(t, s, at))
  {
    BuildU16Is(s, 1);
    if s[0] == 0 {
      BuildU16Is(s, 4);
      BuildU16Is(s, 6);
    } else {
      BuildU16Is(s, 3);
    }
  }

  lemma CfgShifted(t: Types, s: seq<Byte>, step: nat, p: nat, rec: CfgRec)
    requires step <= |s| && CfgStands(t, s[step..], p, rec)
    ensures CfgStands(t, s, step + p, rec)
  {
    assert s[step..] == s[step..|s|];
    SliceOfSlice(s, step, |s|, p + 1, p + 3);
    if rec.Sends? {
      SliceOfSlice(s, step, |s|, p + 4, p + 6);
      SliceOfSlice(s, step, |s|, p + 6, p + 8);
    } else {
      SliceOfSlice(s, step, |s|, p + 3, p + 5);
    }
  }

  /** The records behind the first. */
  lemma Onward(t: Types, s: seq<Byte>, n: nat, at: nat, i: nat) returns (rest: seq<Byte>, rec: CfgRec, p: nat)
    requires Readable2(t, s, n) && 0 < i < n
    ensures rest == s[Step2(t, s)..] && Readable2(t, rest, n - 1)
    ensures rec == Cfgs(t, rest, n - 1, at + Change(t, s))[i - 1] == Cfgs(t, s, n, at)[i]
    ensures p == Pos2(t, rest, n - 1, i - 1) && Pos2(t, s, n, i) == Step2(t, s) + p
  {
    rest := s[Step2(t, s)..];
    rec, p := Cfgs(t, rest, n - 1, at + Change(t, s))[i - 1], Pos2(t, rest, n - 1, i - 1);
  }

  /** Record `i` of the command says what stands at its place in the packet. */
  predicate RecordStands(t: Types, s: seq<Byte>, n: nat, at: nat, i: nat)
    requires Readable2(t, s, n) && i < n
  {
    CfgStands(t, s, Pos2(t, s, n, i), Cfgs(t, s, n, at)[i])
  }

  lemma FirstOf(t: Types, s: seq<Byte>, n: nat, at: nat)
    requires n > 0 && Readable2(t, s, n)
    ensures Cfgs(t, s, n, at)[0] == FirstCfg(t, s, at) && Pos2(t, s, n, 0) == 0
  {
  }

  lemma StandsFirst(t: Types, s: seq<Byte>, n: nat, at: nat)
    requires n > 0 && Readable2(t, s, n)
    ensures RecordStands(t, s, n, at, 0)
  {
    FirstOf(t, s, n, at);
    FirstStands(t, s, at);
  }

  lemma StandsOnward(t: Types, s: seq<Byte>, n: nat, at: nat, i: nat, rest: seq<Byte>)
    requires Readable2(t, s, n) && 0 < i < n && rest == s[Step2(t, s)..]
    requires RecordStands(t, rest, n - 1, at + Change(t, s), i - 1)
    ensures RecordStands(t, s, n, at, i)
  {
    var more, rec, p := Onward(t, s, n, at, i);
    CfgShifted(t, s, Step2(t, s), p, rec);
  }

  lemma {:induction false} CfgRead(t: Types, s: seq<Byte>, n: nat, at: nat, i: nat)
    requires Readable2(t, s, n) && i < n
    ensures RecordStands(t, s, n, at, i)
    decreases i
  {
    if i == 0 {
      StandsFirst(t, s, n, at);
    } else {
      var rest := s[Step2(t, s)..];
      CfgRead(t, rest, n - 1, at + Change(t, s), i - 1);
      StandsOnward(t, s, n, at, i, rest);
    }
  }

  /** The change behind a sent record at place `p` of the packet. */
  function ChangeAt(rec: CfgRec, s: seq<Byte>, p: nat): Wire
    requires rec.Sends? && p + 8 + rec.len <= |s|
  {
    Wire(rec.attrID, rec.dataType, s[p + 8..p + 8 + rec.len])
  }

  /** What `rec` points to is that change, converted. */
  predicate ChangeStands(t: Types, rec: CfgRec, s: seq<Byte>, p: nat, area: seq<Byte>) {
    rec.Sends? && t.analog(rec.dataType) ==>
      && p + 8 + rec.len <= |s| && rec.at + rec.len <= |area|
      && area[rec.at..rec.at + rec.len] == Converted(ChangeAt(rec, s, p))
  }

  lemma FirstChange(t: Types, s: seq<Byte>, before: seq<Byte>, w: Wire, behind: seq<Byte>, area: seq<Byte>)
    requires Headed(s) && Step2(t, s) <= |s| && HasChange(t, s)
    requires w == Wire(BuildU16(s[1], s[2]), s[3], s[8..8 + Change(t, s)])
    requires area == before + Converted(w) + behind
    ensures ChangeStands(t, FirstCfg(t, s, |before|), s, 0, area)
  {
    ThreeParts(before, Converted(w), behind);
  }

  lemma SameChange(rec: CfgRec, s: seq<Byte>, step: nat, p: nat, at: nat)
    requires rec.Sends? && step <= |s| && p + 8 + rec.len <= |s| - step && at == step + p
    ensures ChangeAt(rec, s[step..], p) == ChangeAt(rec, s, at)
  {
    DropSlice(s, step, p + 8, p + 8 + rec.len);
  }

  lemma ChangeShifted(t: Types, rec: CfgRec, s: seq<Byte>, step: nat, p: nat, at: nat, area: seq<Byte>)
    requires step <= |s| && ChangeStands(t, rec, s[step..], p, area) && at == step + p
    ensures ChangeStands(t, rec, s, at, area)
  {
    if rec.Sends? && t.analog(rec.dataType) {
      SameChange(rec, s, step, p, at);
    }
  }

  lemma ValuesOn(t: Types, s: seq<Byte>, n: nat, before: seq<Byte>, area: seq<Byte>)
      returns (w: Wire, rest: seq<Byte>, behind: seq<Byte>)
    requires n > 0 && Readable2(t, s, n) && HasChange(t, s) && area == before + Area(Values(t, s, n))
    ensures w == Wire(BuildU16(s[1], s[2]), s[3], s[8..8 + Change(t, s)])
    ensures rest == s[Step2(t, s)..] && Readable2(t, rest, n - 1) && behind == Area(Values(t, rest, n - 1))
    ensures area == before + Converted(w) + behind
  {
    rest := s[Step2(t, s)..];
    var more := Values(t, rest, n - 1);
    w, behind := Values(t, s, n)[0], Area(more);
    assert Values(t, s, n) == [w] + more && Values(t, s, n)[1..] == more;
    Associate(before, Converted(w), behind, area);
  }

  /** The area behind a record without, and with, a change. */
  lemma AreaNext(t: Types, s: seq<Byte>, n: nat, before: seq<Byte>, behind: seq<Byte>, area: seq<Byte>)
      returns (next: seq<Byte>, rest: seq<Byte>, less: seq<Byte>, at: nat)
    requires n > 0 && Readable2(t, s, n) && behind == Area(Values(t, s, n)) && area == before + behind
    ensures rest == s[Step2(t, s)..] && Readable2(t, rest, n - 1) && less == Area(Values(t, rest, n - 1))
    ensures at == |next| == |before| + Change(t, s) && area == next + less
  {
    rest, next := s[Step2(t, s)..], before;
    less := Area(Values(t, rest, n - 1));
    if HasChange(t, s) {
      var w, more, same := ValuesOn(t, s, n, before, area);
      next := before + Converted(w);
    }
    at := |next|;
  }

  /** So does record `i` of the command. */
  predicate ChangeOf(t: Types, s: seq<Byte>, n: nat, at: nat, i: nat, area: seq<Byte>)
    requires Readable2(t, s, n) && i < n
  {
    ChangeStands(t, Cfgs(t, s, n, at)[i], s, Pos2(t, s, n, i), area)
  }

  lemma ChangeFirst(t: Types, s: seq<Byte>, n: nat, at: nat, before: seq<Byte>, behind: seq<Byte>, area: seq<Byte>)
    requires n > 0 && Readable2(t, s, n) && at == |before|
    requires behind == Area(Values(t, s, n)) && area == before + behind
    ensures ChangeOf(t, s, n, at, 0, area)
  {
    FirstOf(t, s, n, at);
    if HasChange(t, s) {
      var w, rest, less := ValuesOn(t, s, n, before, area);
      FirstChange(t, s, before, w, less, area);
    }
  }

  lemma ChangeOnward(t: Types, s: seq<Byte>, n: nat, at: nat, i: nat, rest: seq<Byte>, area: seq<Byte>)
    requires Readable2(t, s, n) && 0 < i < n && rest == s[Step2(t, s)..]
    requires ChangeOf(t, rest, n - 1, at + Change(t, s), i - 1, area)
    ensures ChangeOf(t, s, n, at, i, area)
  {
    var more, rec, p := Onward(t, s, n, at, i);
    ChangeShifted(t, rec, s, Step2(t, s), p, Pos2(t, s, n, i), area);
  }

  lemma {:induction false} ChangeHolds(t: Types, s: seq<Byte>, n: nat, i: nat, at: nat, before: seq<Byte>,
                                       behind: seq<Byte>, area: seq<Byte>)
    requires Readable2(t, s, n) && i < n && at == |before| && behind == Area(Values(t, s, n))
    requires area == before + behind
    ensures ChangeOf(t, s, n, at, i, area)
    decreases i, 1
  {
    if i == 0 {
      ChangeFirst(t, s, n, at, before, behind, area);
    } else {
      ChangeLater(t, s, n, i, at, before, behind, area);
      ChangeOnward(t, s, n, at, i, s[Step2(t, s)..], area);
    }
  }

  lemma {:induction false} ChangeLater(t: Types, s: seq<Byte>, n: nat, i: nat, at: nat, before: seq<Byte>,
                                       behind: seq<Byte>, area: seq<Byte>)
    requires Readable2(t, s, n) && 0 < i < n && at == |before| && behind == Area(Values(t, s, n))
    requires area == before + behind
    ensures ChangeOf(t, s[Step2(t, s)..], n - 1, at + Change(t, s), i - 1, area)
    decreases i, 0
  {
    var next, rest, less, place := AreaNext(t, s, n, before, behind, area);
    ChangeHolds(t, rest, n - 1, i - 1, place, next, less, area);
  }

  /** The number behind a record comes turned round, a string or a structure as it was sent. */
  predicate ChangeTurned(t: Types, rec: CfgRec, s: seq<Byte>, p: nat, area: seq<Byte>) {
    rec.Sends? && t.analog(rec.dataType) ==>
      && p + 8 + rec.len <= |s| && rec.at + rec.len <= |area|
      && var stored, value := area[rec.at..rec.at + rec.len], s[p + 8..p + 8 + rec.len];
         if (0x41 <= rec.dataType <= 0x44) || rec.dataType == 0x4C then stored == value
         else LittleEndian(stored) == BigEndian(value)
  }

  lemma StandsTurned(t: Types, rec: CfgRec, s: seq<Byte>, p: nat, area: seq<Byte>)
    requires ChangeStands(t, rec, s, p, area)
    ensures ChangeTurned(t, rec, s, p, area)
  {
    if rec.Sends? && t.analog(rec.dataType) {
      ReversedValue(s[p + 8..p + 8 + rec.len]);
    }
  }

  /** So record `i` of the command, as it is built, points to the change at its place in the packet. */
  lemma CommandChange(t: Types, s: seq<Byte>, n: nat, i: nat)
    requires Readable2(t, s, n) && i < n
    ensures ChangeTurned(t, Cfgs(t, s, n, 0)[i], s, Pos2(t, s, n, i), Area(Values(t, s, n)))
  {
    var area := Area(Values(t, s, n));
    assert [] + area == area;
    ChangeHolds(t, s, n, i, 0, [], area, area);
    StandsTurned(t, Cfgs(t, s, n, 0)[i], s, Pos2(t, s, n, i), area);
  }
}
