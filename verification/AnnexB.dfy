/** H.264 byte streams: the format of Annex B (section B.1 of ITU-T H.264) as a printer,
    independent of the scanners that read it. */
module AnnexB {
  import opened Common

  /** A NAL unit and the start code in front of it: `00 00 00 01` when `long`, else `00 00 01`. */
  datatype NalUnit = NalUnit(long: bool, bytes: seq<byte>)

  const SPS: nat := 7
  const PPS: nat := 8
  const IDR_SLICE: nat := 5
  const P_SLICE: nat := 1

  /** `nal_unit_type`, the low five bits of the header byte. */
  function NalType(nal: seq<byte>): nat
    requires nal != []
  {
    nal[0] % 32
  }

  function StartCode(long: bool): seq<byte> {
    if long then [0, 0, 0, 1] else [0, 0, 1]
  }

  function Print(u: NalUnit): seq<byte> {
    StartCode(u.long) + u.bytes
  }

  function Serialize(us: seq<NalUnit>): seq<byte> {
    if us == [] then [] else Print(us[0]) + Serialize(us[1..])
  }

  /** The bytes of the format: each unit stands behind `00 00 00 01` or `00 00 01`. */
  lemma {:induction false} PrintsStartCodes(us: seq<NalUnit>, u: NalUnit)
    ensures Serialize([]) == []
    ensures Serialize(us + [u]) == Serialize(us) + (if u.long then [0, 0, 0, 1] else [0, 0, 1]) + u.bytes
  {
    if us == [] {
      assert [u][1..] == [] && us + [u] == [u];
    } else {
      assert (us + [u])[1..] == us[1..] + [u];
      PrintsStartCodes(us[1..], u);
    }
  }

  ghost predicate ShortCodeAt(d: seq<byte>, i: int) {
    0 <= i && i + 2 < |d| && d[i] == 0 && d[i + 1] == 0 && d[i + 2] == 1
  }

  ghost predicate LongCodeAt(d: seq<byte>, i: int) {
    0 <= i && i + 3 < |d| && d[i] == 0 && d[i + 1] == 0 && d[i + 2] == 0 && d[i + 3] == 1
  }

  /** What section 7.4.1 of ITU-T H.264 gives: a header byte, no start code inside,
      and a last byte that is not zero. */
  ghost predicate WellFormed(nal: seq<byte>) {
    && nal != []
    && nal[|nal| - 1] != 0
    && forall i :: !ShortCodeAt(nal, i)
  }

  ghost predicate AllWellFormed(us: seq<NalUnit>) {
    forall i :: 0 <= i < |us| ==> WellFormed(us[i].bytes)
  }

  /** The first NAL unit of type `t`, without its start code. */
  function FirstOfType(us: seq<NalUnit>, t: nat): Option<seq<byte>> {
    if us == [] then None
    else if us[0].bytes != [] && NalType(us[0].bytes) == t then Some(us[0].bytes)
    else FirstOfType(us[1..], t)
  }

  /** The type is in the low five bits of the first byte. */
  lemma {:induction false} FirstOfTypeIs(us: seq<NalUnit>, t: nat, k: nat)
    requires AllWellFormed(us) && k <= |us|
    requires forall i :: 0 <= i < k ==> us[i].bytes[0] % 32 != t
    requires k < |us| ==> us[k].bytes[0] % 32 == t
    ensures FirstOfType(us, t) == if k < |us| then Some(us[k].bytes) else None
  {
    if us != [] && k > 0 {
      FirstOfTypeIs(us[1..], t, k - 1);
    }
  }

  /** A start code of a serialised stream stands where a unit begins and nowhere else:
      after the start code of the unit at `pos` there is no second one before the next unit. */
  lemma {:induction false} NoCodeInside(d: seq<byte>, pos: nat, us: seq<NalUnit>, i: nat)
    requires us != [] && AllWellFormed(us)
    requires pos <= |d| && d[pos..] == Serialize(us)
    requires pos + |StartCode(us[0].long)| - 2 <= i < pos + |Print(us[0])|
    ensures !ShortCodeAt(d, i) && !LongCodeAt(d, i)
  {
    hide Serialize, ShortCodeAt, LongCodeAt, WellFormed;
    UnitBytes(d, pos, us);
    var p := |StartCode(us[0].long)|;
    assert StartCode(us[0].long)[p - 1] == 1;
    BehindStartCode(d, us[0].bytes, pos + p, i);
  }

  /** There is no start code in a unit that stands at `start`, and none reaches into it or out of it. */
  lemma {:induction false} BehindStartCode(d: seq<byte>, nal: seq<byte>, start: nat, i: nat)
    requires WellFormed(nal) && 2 <= start && start + |nal| <= |d| && d[start..start + |nal|] == nal
    requires d[start - 1] == 1 && start - 2 <= i < start + |nal|
    ensures !ShortCodeAt(d, i) && !LongCodeAt(d, i)
  {
    forall k: nat | k < |nal|
      ensures d[start + k] == nal[k]
    {
      assert d[start..start + |nal|][k] == nal[k];
    }
    assert d[start + (|nal| - 1)] != 0;
    assert !ShortCodeAt(nal, i - start) && !ShortCodeAt(nal, i + 1 - start);
  }

  /** Where the parts of the first unit lie. */
  lemma {:induction false} UnitBytes(d: seq<byte>, pos: nat, us: seq<NalUnit>)
    requires us != []
    requires pos <= |d| && d[pos..] == Serialize(us)
    ensures pos + |Print(us[0])| <= |d|
    ensures d[pos + |Print(us[0])|..] == Serialize(us[1..])
    ensures forall k :: 0 <= k < |StartCode(us[0].long)| ==> d[pos + k] == StartCode(us[0].long)[k]
    ensures forall k :: 0 <= k < |us[0].bytes| ==> d[pos + |StartCode(us[0].long)| + k] == us[0].bytes[k]
    ensures d[pos + |StartCode(us[0].long)|..pos + |Print(us[0])|] == us[0].bytes
  {
    var n := |Print(us[0])|;
    var s := Serialize(us);
    assert s == Print(us[0]) + Serialize(us[1..]);
    assert d[pos + n..] == d[pos..][n..] == s[n..];
    forall k | 0 <= k < n
      ensures d[pos + k] == Print(us[0])[k]
    {
      assert d[pos + k] == d[pos..][k];
    }
    forall k | 0 <= k < |us[0].bytes|
      ensures d[pos + |StartCode(us[0].long)| + k] == us[0].bytes[k]
    {
      assert d[pos + (|StartCode(us[0].long)| + k)] == Print(us[0])[|StartCode(us[0].long)| + k];
    }
  }

  /** A non-empty list of units with headers serialises to at least four bytes. */
  lemma {:induction false} SerializeLength(us: seq<NalUnit>)
    requires us != [] && AllWellFormed(us)
    ensures |Serialize(us)| >= 4
  {
  }
}
