/** The byte-stream scanners of src/frame_manager.c: `extract_stream_params` (lines 440-524) and
    `detect_frame_type` (lines 541-557). Each loop is a method proved against a recursive
    specification; the lemmas then relate the specifications to the Annex B printer. */
module FrameScanner {
  import opened Common
  import opened AnnexB

  /** `stream_params_t`; a null pointer is None. */
  datatype StreamParams = StreamParams(sps: Option<seq<byte>>, pps: Option<seq<byte>>, available: bool)

  const EMPTY_PARAMS: StreamParams := StreamParams(None, None, false)

  datatype FrameType = H264Idr | H264P

  /** Results of `malloc` for one frame, by the offset of the NAL unit it is called for. */
  type Allocator = nat -> bool

  const ALL_GRANTED: Allocator := (_ => true)

  // ---- Specification of the scanner ----

  /** Length of the start code at `i`; the longer form is tried first. */
  function CodeLength(d: seq<byte>, i: nat): nat {
    if i + 3 < |d| && d[i] == 0 && d[i + 1] == 0 && d[i + 2] == 0 && d[i + 3] == 1 then 4
    else if i + 2 < |d| && d[i] == 0 && d[i + 1] == 0 && d[i + 2] == 1 then 3
    else 0
  }

  /** Result of the inner search for the end of a NAL unit, started at `j`. */
  function NalEnd(d: seq<byte>, j: nat): (end: nat)
    requires j <= |d|
    ensures j <= end <= |d|
    decreases |d| - j
  {
    if j + 3 >= |d| then |d|
    else if CodeLength(d, j) > 0 then j
    else NalEnd(d, j + 1)
  }

  /** Effect of one SPS or PPS on the stored parameters. */
  function Store(p: StreamParams, nal: seq<byte>, granted: bool): StreamParams
    requires nal != []
  {
    var q :=
      if NalType(nal) == SPS && p.sps.None? then
        if granted then p.(sps := Some(nal)) else p
      else if NalType(nal) == PPS && p.pps.None? then
        if granted then p.(pps := Some(nal)) else p
      else p;
    if q.sps.Some? && q.pps.Some? then q.(available := true) else q
  }

  /** Result of the outer loop, entered at `offset`. */
  function Scan(p: StreamParams, d: seq<byte>, offset: nat, alloc: Allocator): StreamParams
    decreases |d| - offset
  {
    if offset + 4 >= |d| then p
    else
      var start := offset + CodeLength(d, offset);
      if start > offset && d[start] % 32 in {SPS, PPS} then
        var end := NalEnd(d, start + 1);
        Scan(Store(p, d[start..end], alloc(start)), d, end, alloc)
      else
        Scan(p, d, offset + 1, alloc)
  }

  function Extract(p: StreamParams, d: seq<byte>, alloc: Allocator): StreamParams {
    if p.available then p else Scan(p, d, 0, alloc)
  }

  /** Result of the classification loop, entered at `i`. */
  function Detect(d: seq<byte>, i: nat): FrameType
    decreases |d| - i
  {
    if i + 4 >= |d| then H264P
    else if CodeLength(d, i) == 4 && d[i + 4] % 32 == IDR_SLICE then H264Idr
    else if CodeLength(d, i) == 4 && d[i + 4] % 32 == P_SLICE then H264P
    else Detect(d, i + 1)
  }

  // ---- The loops ----

  /** The inner loop of `extract_stream_params`. */
  method FindNalEnd(data: array<byte>, size: nat, from: nat) returns (nalEnd: nat)
    requires 4 <= size <= data.Length && from <= size
    ensures nalEnd == NalEnd(data[..size], from)
  {
    nalEnd := size;
    ghost var d := data[..size];
    var j := from;
    while j < size - 3
      invariant from <= j <= size
      invariant NalEnd(d, j) == NalEnd(d, from)
    {
      if (data[j] == 0 && data[j + 1] == 0 && data[j + 2] == 0 && data[j + 3] == 1)
         || (data[j] == 0 && data[j + 1] == 0 && data[j + 2] == 1)
      {
        return j;
      }
      j := j + 1;
    }
  }

  /** The body of the SPS/PPS branch (lines 494-515): `granted` is what `malloc` would answer. */
  method StoreNal(params: StreamParams, nal: seq<byte>, granted: bool) returns (result: StreamParams)
    requires nal != []
    ensures result == Store(params, nal, granted)
  {
    result := params;
    if NalType(nal) == SPS && result.sps.None? {
      if granted {
        result := result.(sps := Some(nal));
      }
    } else if NalType(nal) == PPS && result.pps.None? {
      if granted {
        result := result.(pps := Some(nal));
      }
    }
    if result.sps.Some? && result.pps.Some? {
      result := result.(available := true);
    }
  }

  /** Lines 459-474: the start code at `offset`, and where the NAL unit behind it begins. */
  method FindStartCode(data: array<byte>, size: nat, offset: nat) returns (foundStartCode: bool, nalStart: nat)
    requires offset + 4 < size <= data.Length
    ensures foundStartCode <==> CodeLength(data[..size], offset) > 0
    ensures foundStartCode ==> nalStart == offset + CodeLength(data[..size], offset) < size
  {
    nalStart := 0;
    foundStartCode := false;
    if data[offset] == 0 && data[offset + 1] == 0 && data[offset + 2] == 0 && data[offset + 3] == 1 {
      foundStartCode, nalStart := true, offset + 4;
    } else if offset < size - 3 && data[offset] == 0 && data[offset + 1] == 0 && data[offset + 2] == 1 {
      foundStartCode, nalStart := true, offset + 3;
    }
  }

  /** The body of the outer loop; `next` is the offset of the next turn. */
  method ScanTurn(params: StreamParams, data: array<byte>, size: nat, offset: nat, alloc: Allocator)
    returns (result: StreamParams, next: nat)
    requires offset + 4 < size <= data.Length
    ensures offset < next <= size
    ensures Scan(result, data[..size], next, alloc) == Scan(params, data[..size], offset, alloc)
  {
    hide Scan, Store, NalEnd, CodeLength;
    ghost var d := data[..size];
    result, next := params, offset;
    var foundStartCode, nalStart := FindStartCode(data, size, offset);
    if foundStartCode && nalStart < size && data[nalStart] % 32 in {SPS, PPS} {
      var nalEnd := FindNalEnd(data, size, nalStart + 1);
      result := StoreNal(params, data[nalStart..nalEnd], alloc(nalStart));
      assert data[nalStart..nalEnd] == d[nalStart..nalEnd];
      ScanStores(params, d, offset, alloc);
      next := nalEnd - 1;
    } else {
      ScanPasses(params, d, offset, alloc);
    }
    next := next + 1;
  }

  /** `extract_stream_params` on the first `size` bytes of a channel buffer. A frame shorter than
      four bytes may only be passed when the parameters are already complete: the loop bound
      `size - 4` is unsigned. */
  method ExtractStreamParams(params: StreamParams, data: array?<byte>, size: nat, alloc: Allocator)
    returns (result: StreamParams)
    requires data == null ==> size == 0
    requires data != null ==> size <= data.Length
    requires size >= 4 || params.available
    ensures result == Extract(params, if data == null then [] else data[..size], alloc)
  {
    if params.available {
      return params;
    }
    hide Scan;
    result := params;
    var offset := 0;
    while offset < size - 4
      invariant Scan(result, data[..size], offset, alloc) == Scan(params, data[..size], 0, alloc)
      decreases size - offset
    {
      result, offset := ScanTurn(result, data, size, offset, alloc);
    }
    ScanAtEnd(result, data[..size], offset, alloc);
  }

  /** `detect_frame_type` on the first `size` bytes of a channel buffer. */
  method DetectFrameType(data: array?<byte>, size: nat) returns (t: FrameType)
    requires data == null ==> size == 0
    requires data != null ==> size <= data.Length
    ensures t == Detect(if data == null then [] else data[..size], 0)
  {
    if size < 5 {
      return H264P;
    }
    ghost var d := data[..size];
    var i := 0;
    while i < size - 4
      invariant Detect(d, i) == Detect(d, 0)
    {
      if data[i] == 0 && data[i + 1] == 0 && data[i + 2] == 0 && data[i + 3] == 1 {
        var nalType := data[i + 4] % 32;
        if nalType == IDR_SLICE {
          return H264Idr;
        }
        if nalType == P_SLICE {
          return H264P;
        }
      }
      i := i + 1;
    }
    return H264P;
  }

  // ---- The latch ----

  /** `available` says that both sets are stored, and what is stored has the right header. */
  ghost predicate Consistent(p: StreamParams) {
    && (p.available <==> p.sps.Some? && p.pps.Some?)
    && (p.sps.Some? ==> p.sps.value != [] && NalType(p.sps.value) == SPS)
    && (p.pps.Some? ==> p.pps.value != [] && NalType(p.pps.value) == PPS)
  }

  /** Nothing that `p` holds has changed in `q`. */
  ghost predicate Keeps(p: StreamParams, q: StreamParams) {
    && (p.sps.Some? ==> q.sps == p.sps)
    && (p.pps.Some? ==> q.pps == p.pps)
    && (p.available ==> q == p)
  }

  /** For frames that the loop bound `size - 4` makes sense for. */
  lemma {:induction false} ScanLatches(p: StreamParams, d: seq<byte>, offset: nat, alloc: Allocator)
    requires Consistent(p) && |d| >= 4
    ensures Consistent(Scan(p, d, offset, alloc))
    ensures Keeps(p, Scan(p, d, offset, alloc))
    decreases |d| - offset
  {
    if offset + 4 < |d| {
      var start := offset + CodeLength(d, offset);
      if start > offset && d[start] % 32 in {SPS, PPS} {
        var end := NalEnd(d, start + 1);
        ScanLatches(Store(p, d[start..end], alloc(start)), d, end, alloc);
      } else {
        ScanLatches(p, d, offset + 1, alloc);
      }
    }
  }

  // ---- Scanning what the printer wrote ----

  /** The last unit is invisible to the loop bound when it is a single byte behind a short code. */
  predicate Visible(u: NalUnit, last: bool) {
    u.long || !last || |u.bytes| >= 2
  }

  /** The first visible unit of type `t` whose allocation succeeds, in a stream that starts at `pos`. */
  function FirstStored(us: seq<NalUnit>, t: nat, pos: nat, alloc: Allocator): Option<seq<byte>> {
    if us == [] then None
    else if && us[0].bytes != [] && NalType(us[0].bytes) == t
            && Visible(us[0], |us| == 1)
            && alloc(pos + |StartCode(us[0].long)|)
    then Some(us[0].bytes)
    else FirstStored(us[1..], t, pos + |Print(us[0])|, alloc)
  }

  /** A stretch without start codes is passed over. */
  lemma {:induction false} ScanSkips(p: StreamParams, d: seq<byte>, from: nat, to: nat, alloc: Allocator)
    requires from <= to <= |d|
    requires forall i :: from <= i < to ==> CodeLength(d, i) == 0
    ensures Scan(p, d, from, alloc) == Scan(p, d, to, alloc)
    decreases |d| - from
  {
    if from < to {
      ScanSkips(p, d, from + 1, to, alloc);
    }
  }

  lemma {:induction false} NalEndIs(d: seq<byte>, j: nat, end: nat)
    requires j <= end <= |d|
    requires forall i :: j <= i < end ==> CodeLength(d, i) == 0
    requires end == |d| || (end + 3 < |d| && CodeLength(d, end) > 0)
    ensures NalEnd(d, j) == end
    decreases |d| - j
  {
    if j < end {
      NalEndIs(d, j + 1, end);
    }
  }

  /** Where the scanners find start codes in the unit at `pos`. */
  lemma {:induction false} UnitCodes(d: seq<byte>, pos: nat, us: seq<NalUnit>)
    requires us != [] && AllWellFormed(us)
    requires pos <= |d| && d[pos..] == Serialize(us)
    ensures pos + |Print(us[0])| <= |d|
    ensures CodeLength(d, pos) == |StartCode(us[0].long)|
    ensures us[0].long ==> CodeLength(d, pos + 1) == 3
    ensures forall i :: pos + |StartCode(us[0].long)| - 2 <= i < pos + |Print(us[0])| ==> CodeLength(d, i) == 0
  {
    UnitBytes(d, pos, us);
    forall i: nat | pos + |StartCode(us[0].long)| - 2 <= i < pos + |Print(us[0])|
      ensures CodeLength(d, i) == 0
    {
      NoCodeInside(d, pos, us, i);
    }
  }

  /** The inner search stops exactly at the end of the unit at `pos`. */
  lemma {:induction false} UnitEnd(d: seq<byte>, pos: nat, us: seq<NalUnit>)
    requires us != [] && AllWellFormed(us)
    requires pos <= |d| && d[pos..] == Serialize(us)
    ensures pos + |Print(us[0])| <= |d|
    ensures NalEnd(d, pos + |StartCode(us[0].long)| + 1) == pos + |Print(us[0])|
  {
    UnitCodes(d, pos, us);
    var next := pos + |Print(us[0])|;
    NextUnit(d, pos, us);
    NalEndIs(d, pos + |StartCode(us[0].long)| + 1, next);
  }

  /** The unit at `pos` ends at a start code that the inner search can see, or with the stream. */
  lemma {:induction false} NextUnit(d: seq<byte>, pos: nat, us: seq<NalUnit>)
    requires us != [] && AllWellFormed(us)
    requires pos <= |d| && d[pos..] == Serialize(us)
    ensures var next := pos + |Print(us[0])|;
            if us[1..] == [] then next == |d| else next + 3 < |d| && CodeLength(d, next) > 0
  {
    UnitBytes(d, pos, us);
    if us[1..] != [] {
      assert us[1..][0] == us[1];
      UnitCodes(d, pos + |Print(us[0])|, us[1..]);
    }
  }

  /** The parameters after the unit at `pos`. */
  function AfterUnit(p: StreamParams, us: seq<NalUnit>, pos: nat, alloc: Allocator): StreamParams
    requires us != [] && us[0].bytes != []
  {
    if Visible(us[0], |us| == 1) && NalType(us[0].bytes) in {SPS, PPS}
    then Store(p, us[0].bytes, alloc(pos + |StartCode(us[0].long)|))
    else p
  }

  /** One unit of a printed list, scanned. */
  lemma {:induction false} ScanUnit(p: StreamParams, d: seq<byte>, pos: nat, us: seq<NalUnit>, alloc: Allocator)
    requires us != [] && AllWellFormed(us)
    requires pos <= |d| && d[pos..] == Serialize(us)
    ensures pos + |Print(us[0])| <= |d|
    ensures Scan(p, d, pos, alloc) == Scan(AfterUnit(p, us, pos, alloc), d, pos + |Print(us[0])|, alloc)
  {
    UnitCodes(d, pos, us);
    NextUnit(d, pos, us);
    assert d[pos + |StartCode(us[0].long)|] == us[0].bytes[0] by {
      UnitBytes(d, pos, us);
    }
    if pos + 4 < |d| {
      if NalType(us[0].bytes) in {SPS, PPS} {
        ScanParameterSet(p, d, pos, us, alloc);
      } else {
        ScanOther(p, d, pos, us, alloc);
      }
    }
  }

  lemma {:induction false} ScanParameterSet(p: StreamParams, d: seq<byte>, pos: nat, us: seq<NalUnit>, alloc: Allocator)
    requires us != [] && AllWellFormed(us) && NalType(us[0].bytes) in {SPS, PPS}
    requires pos + 4 < |d| && d[pos..] == Serialize(us)
    ensures pos + |Print(us[0])| <= |d|
    ensures Scan(p, d, pos, alloc)
         == Scan(Store(p, us[0].bytes, alloc(pos + |StartCode(us[0].long)|)), d, pos + |Print(us[0])|, alloc)
  {
    hide Scan, Store, Serialize, NalEnd;
    var start := pos + |StartCode(us[0].long)|;
    assert CodeLength(d, pos) == |StartCode(us[0].long)| by { UnitCodes(d, pos, us); }
    assert NalEnd(d, start + 1) == pos + |Print(us[0])| by { UnitEnd(d, pos, us); }
    assert d[start..pos + |Print(us[0])|] == us[0].bytes by { UnitBytes(d, pos, us); }
    assert d[start] == us[0].bytes[0] by { UnitBytes(d, pos, us); }
    ScanStores(p, d, pos, alloc);
  }

  /** The scanner at the start code of a parameter set. */
  lemma {:induction false} ScanStores(p: StreamParams, d: seq<byte>, offset: nat, alloc: Allocator)
    requires offset + 4 < |d| && CodeLength(d, offset) > 0
    requires d[offset + CodeLength(d, offset)] % 32 in {SPS, PPS}
    ensures var start := offset + CodeLength(d, offset);
            var end := NalEnd(d, start + 1);
            Scan(p, d, offset, alloc) == Scan(Store(p, d[start..end], alloc(start)), d, end, alloc)
  {
  }

  lemma {:induction false} ScanOther(p: StreamParams, d: seq<byte>, pos: nat, us: seq<NalUnit>, alloc: Allocator)
    requires us != [] && AllWellFormed(us) && NalType(us[0].bytes) !in {SPS, PPS}
    requires pos + 4 < |d| && d[pos..] == Serialize(us)
    ensures pos + |Print(us[0])| <= |d|
    ensures Scan(p, d, pos, alloc) == Scan(p, d, pos + |Print(us[0])|, alloc)
  {
    hide Scan, Serialize;
    UnitCodes(d, pos, us);
    var start := pos + |StartCode(us[0].long)|;
    assert d[start] == us[0].bytes[0] by { UnitBytes(d, pos, us); }
    ScanSkips(p, d, start - 2, pos + |Print(us[0])|, alloc);
    if us[0].long {
      ScanPasses(p, d, pos, alloc);
      ScanPasses(p, d, pos + 1, alloc);
    } else {
      ScanPasses(p, d, pos, alloc);
    }
  }

  /** A start code of another unit is passed over byte by byte; the second byte of a long code is seen
      as a short code of the same unit. */
  lemma {:induction false} ScanPasses(p: StreamParams, d: seq<byte>, offset: nat, alloc: Allocator)
    requires offset < |d|
    requires offset + 4 < |d| && CodeLength(d, offset) > 0 ==> d[offset + CodeLength(d, offset)] % 32 !in {SPS, PPS}
    ensures Scan(p, d, offset, alloc) == Scan(p, d, offset + 1, alloc)
  {
  }

  lemma {:induction false} ScanAtEnd(p: StreamParams, d: seq<byte>, offset: nat, alloc: Allocator)
    requires offset + 4 >= |d|
    ensures Scan(p, d, offset, alloc) == p
  {
  }

  lemma {:induction false} NothingStored(pos: nat, alloc: Allocator)
    ensures FirstStored([], SPS, pos, alloc) == None && FirstStored([], PPS, pos, alloc) == None
  {
  }

  /** What the first unit adds comes before what the others add. */
  lemma {:induction false} UnitStored(p: StreamParams, us: seq<NalUnit>, pos: nat, alloc: Allocator)
    requires us != [] && us[0].bytes != []
    ensures var (q, next) := (AfterUnit(p, us, pos, alloc), pos + |Print(us[0])|);
            && OrElse(q.sps, FirstStored(us[1..], SPS, next, alloc)) == OrElse(p.sps, FirstStored(us, SPS, pos, alloc))
            && OrElse(q.pps, FirstStored(us[1..], PPS, next, alloc)) == OrElse(p.pps, FirstStored(us, PPS, pos, alloc))
  {
    hide Print, StartCode;
  }

  /** The scanner keeps, of each kind, the first unit of the printed list that it can allocate
      room for, for every outcome of the allocations. */
  lemma {:induction false} ScanSerialized(p: StreamParams, d: seq<byte>, pos: nat, us: seq<NalUnit>, alloc: Allocator)
    requires AllWellFormed(us)
    requires pos <= |d| && d[pos..] == Serialize(us)
    ensures Scan(p, d, pos, alloc).sps == OrElse(p.sps, FirstStored(us, SPS, pos, alloc))
    ensures Scan(p, d, pos, alloc).pps == OrElse(p.pps, FirstStored(us, PPS, pos, alloc))
    decreases |us|
  {
    hide Scan, FirstStored, AfterUnit;
    if us == [] {
      assert |d| == pos;
      ScanAtEnd(p, d, pos, alloc);
      NothingStored(pos, alloc);
    } else {
      UnitBytes(d, pos, us);
      ScanUnit(p, d, pos, us, alloc);
      UnitStored(p, us, pos, alloc);
      ScanSerialized(AfterUnit(p, us, pos, alloc), d, pos + |Print(us[0])|, us[1..], alloc);
    }
  }

  /** When every allocation succeeds, what is stored is the first unit of the type in the list
      without an invisible last unit. */
  lemma {:induction false} FirstStoredIs(us: seq<NalUnit>, t: nat, pos: nat, alloc: Allocator)
    requires us != [] && AllWellFormed(us)
    requires forall k :: alloc(k)
    ensures FirstStored(us, t, pos, alloc)
         == FirstOfType(if Visible(us[|us| - 1], true) then us else us[..|us| - 1], t)
  {
    var kept := if Visible(us[|us| - 1], true) then us else us[..|us| - 1];
    if |us| == 1 {
      assert us[1..] == [];
    } else {
      FirstStoredIs(us[1..], t, pos + |Print(us[0])|, alloc);
      assert us[1..][|us| - 2] == us[|us| - 1];
      assert kept[1..] == if Visible(us[|us| - 1], true) then us[1..] else us[1..][..|us| - 2];
    }
  }

  lemma {:induction false} FirstOfTypeConcat(us: seq<NalUnit>, vs: seq<NalUnit>, t: nat)
    ensures FirstOfType(us + vs, t) == OrElse(FirstOfType(us, t), FirstOfType(vs, t))
  {
    if us == [] {
      assert us + vs == vs;
    } else {
      assert (us + vs)[1..] == us[1..] + vs;
      FirstOfTypeConcat(us[1..], vs, t);
    }
  }

  /** Extraction from a printed list whose allocations succeed. */
  lemma {:induction false} ExtractSerialized(p: StreamParams, us: seq<NalUnit>, alloc: Allocator)
    requires Consistent(p)
    requires us != [] && AllWellFormed(us)
    requires forall k :: alloc(k)
    ensures var kept := if Visible(us[|us| - 1], true) then us else us[..|us| - 1];
            && Extract(p, Serialize(us), alloc).sps == OrElse(p.sps, FirstOfType(kept, SPS))
            && Extract(p, Serialize(us), alloc).pps == OrElse(p.pps, FirstOfType(kept, PPS))
            && Consistent(Extract(p, Serialize(us), alloc))
  {
    assert Serialize(us)[0..] == Serialize(us);
    ScanSerialized(p, Serialize(us), 0, us, alloc);
    ScanLatches(p, Serialize(us), 0, alloc);
    FirstStoredIs(us, SPS, 0, alloc);
    FirstStoredIs(us, PPS, 0, alloc);
  }

  /** Extraction undoes printing: on a fresh channel whose allocations succeed, the scanner stores
      exactly the first SPS and the first PPS of the list, and reports completeness iff both exist. */
  lemma {:induction false} AnnexBRoundTrip(us: seq<NalUnit>)
    requires us != [] && AllWellFormed(us) && Visible(us[|us| - 1], true)
    ensures var r := Extract(EMPTY_PARAMS, Serialize(us), ALL_GRANTED);
            && r.sps == FirstOfType(us, SPS)
            && r.pps == FirstOfType(us, PPS)
            && (r.available <==> FirstOfType(us, SPS).Some? && FirstOfType(us, PPS).Some?)
  {
    ExtractSerialized(EMPTY_PARAMS, us, ALL_GRANTED);
  }

  /** The stored set of type `t`. */
  function Stored(p: StreamParams, t: nat): Option<seq<byte>> {
    if t == SPS then p.sps else p.pps
  }

  /** The exact condition without the restriction on the last unit: the first set of type `t` is
      lost iff it is a single byte behind a short start code at the end of the list. */
  lemma {:induction false} RoundTripExactly(us: seq<NalUnit>, t: nat)
    requires us != [] && AllWellFormed(us) && t in {SPS, PPS}
    ensures var last := us[|us| - 1];
            Stored(Extract(EMPTY_PARAMS, Serialize(us), ALL_GRANTED), t) == FirstOfType(us, t)
            <==>
            Visible(last, true) || NalType(last.bytes) != t || FirstOfType(us[..|us| - 1], t).Some?
  {
    var init, last := us[..|us| - 1], us[|us| - 1];
    ExtractSerialized(EMPTY_PARAMS, us, ALL_GRANTED);
    assert FirstOfType(us, t) == OrElse(FirstOfType(init, t), FirstOfType([last], t)) by {
      assert us == init + [last];
      FirstOfTypeConcat(init, [last], t);
    }
    assert FirstOfType([last], t) == if NalType(last.bytes) == t then Some(last.bytes) else None by {
      assert [last][1..] == [];
    }
  }

  /** The round trip in terms of header bytes: with a last unit of two bytes or more, a fresh channel holds
      the first unit of type 7 as SPS and the first of type 8 as PPS. */
  lemma {:induction false} ParametersByHeader(us: seq<NalUnit>, k: nat, m: nat)
    requires us != [] && AllWellFormed(us) && |us[|us| - 1].bytes| >= 2 && k <= |us| && m <= |us|
    requires forall i :: 0 <= i < k ==> us[i].bytes[0] % 32 != 7
    requires forall i :: 0 <= i < m ==> us[i].bytes[0] % 32 != 8
    requires k < |us| ==> us[k].bytes[0] % 32 == 7
    requires m < |us| ==> us[m].bytes[0] % 32 == 8
    ensures var p := Extract(EMPTY_PARAMS, Serialize(us), ALL_GRANTED);
            && p.sps == (if k < |us| then Some(us[k].bytes) else None)
            && p.pps == (if m < |us| then Some(us[m].bytes) else None)
            && (p.available <==> k < |us| && m < |us|)
  {
    hide Extract, Serialize, FirstOfType;
    ExtractSerialized(EMPTY_PARAMS, us, ALL_GRANTED);
    FirstOfTypeIs(us, 7, k);
    FirstOfTypeIs(us, 8, m);
  }

  // ---- Classification ----

  /** Type of the first slice NAL unit; only those behind a long start code when `longOnly`. */
  function FirstSlice(us: seq<NalUnit>, longOnly: bool): Option<nat> {
    if us == [] then None
    else if us[0].bytes != [] && NalType(us[0].bytes) in {P_SLICE, IDR_SLICE} && (us[0].long || !longOnly)
    then Some(NalType(us[0].bytes))
    else FirstSlice(us[1..], longOnly)
  }

  lemma {:induction false} DetectSkips(d: seq<byte>, from: nat, to: nat)
    requires from <= to <= |d|
    requires forall i :: from <= i < to ==> CodeLength(d, i) != 4
    ensures Detect(d, from) == Detect(d, to)
    decreases |d| - from
  {
    if from < to {
      DetectSkips(d, from + 1, to);
    }
  }

  /** The classifier answers IDR iff the first slice behind a four-byte start code is an IDR slice. */
  lemma {:induction false} DetectSerialized(d: seq<byte>, pos: nat, us: seq<NalUnit>)
    requires AllWellFormed(us)
    requires pos <= |d| && d[pos..] == Serialize(us)
    ensures Detect(d, pos) == if FirstSlice(us, true) == Some(IDR_SLICE) then H264Idr else H264P
    decreases |us|
  {
    if us != [] {
      UnitCodes(d, pos, us);
      var start := pos + |StartCode(us[0].long)|;
      var next := pos + |Print(us[0])|;
      assert d[next..] == Serialize(us[1..]) && d[start] == us[0].bytes[0] by {
        UnitBytes(d, pos, us);
      }
      DetectSkips(d, if us[0].long then pos + 1 else pos, next);
      DetectSerialized(d, next, us[1..]);
    }
  }

  /** The classifier on a whole printed list. */
  lemma {:induction false} DetectPrinted(us: seq<NalUnit>)
    requires AllWellFormed(us)
    ensures Detect(Serialize(us), 0) == if FirstSlice(us, true) == Some(IDR_SLICE) then H264Idr else H264P
  {
    assert Serialize(us)[0..] == Serialize(us);
    DetectSerialized(Serialize(us), 0, us);
  }

  /** Lists printed with four-byte start codes only: the frame is a keyframe iff its first slice
      is an IDR slice, whatever parameter sets and other units come before it. */
  lemma {:induction false} KeyframeIffFirstSliceIsIdr(us: seq<NalUnit>)
    requires AllWellFormed(us)
    requires forall i :: 0 <= i < |us| ==> us[i].long
    ensures Detect(Serialize(us), 0) == H264Idr <==> FirstSlice(us, false) == Some(IDR_SLICE)
  {
    DetectPrinted(us);
    AllLong(us);
  }

  lemma {:induction false} AllLong(us: seq<NalUnit>)
    requires forall i :: 0 <= i < |us| ==> us[i].long
    ensures FirstSlice(us, true) == FirstSlice(us, false)
  {
    if us != [] {
      AllLong(us[1..]);
    }
  }

  /** Mixed start codes: the classifier decides by the first slice iff that slice has a four-byte
      start code; otherwise that slice does not count and the units after it decide. */
  lemma {:induction false} ClassificationExactly(us: seq<NalUnit>, k: nat)
    requires AllWellFormed(us) && k < |us|
    requires NalType(us[k].bytes) in {P_SLICE, IDR_SLICE}
    requires forall i :: 0 <= i < k ==> NalType(us[i].bytes) !in {P_SLICE, IDR_SLICE}
    ensures FirstSlice(us, false) == Some(NalType(us[k].bytes))
    ensures us[k].long ==>
              (Detect(Serialize(us), 0) == H264Idr <==> NalType(us[k].bytes) == IDR_SLICE)
    ensures !us[k].long ==>
              (Detect(Serialize(us), 0) == H264Idr <==> FirstSlice(us[k + 1..], true) == Some(IDR_SLICE))
  {
    DetectPrinted(us);
    FirstSliceAt(us, k, true);
    FirstSliceAt(us, k, false);
  }

  /** The classification in terms of header bytes: the first unit of type 1 or 5 decides, when it stands
      behind a long start code. */
  lemma {:induction false} KeyframeByHeader(us: seq<NalUnit>, k: nat)
    requires AllWellFormed(us) && k < |us| && us[k].long && us[k].bytes[0] % 32 in {1, 5}
    requires forall i :: 0 <= i < k ==> us[i].bytes[0] % 32 !in {1, 5}
    ensures Detect(Serialize(us), 0) == H264Idr <==> us[k].bytes[0] % 32 == 5
  {
    hide Detect, Serialize, FirstSlice;
    ClassificationExactly(us, k);
  }

  lemma {:induction false} FirstSliceAt(us: seq<NalUnit>, k: nat, longOnly: bool)
    requires AllWellFormed(us) && k < |us|
    requires NalType(us[k].bytes) in {P_SLICE, IDR_SLICE}
    requires forall i :: 0 <= i < k ==> NalType(us[i].bytes) !in {P_SLICE, IDR_SLICE}
    ensures FirstSlice(us, longOnly)
         == if us[k].long || !longOnly then Some(NalType(us[k].bytes)) else FirstSlice(us[k + 1..], longOnly)
  {
    if k > 0 {
      FirstSliceAt(us[1..], k - 1, longOnly);
      assert us[1..][k..] == us[k + 1..];
    }
  }

  /** An IDR slice behind a three-byte start code is taken for a P frame. */
  lemma {:induction false} ShortCodedIdrIsMissed()
    ensures AllWellFormed([NalUnit(false, [0x65, 0x88])])
    ensures FirstSlice([NalUnit(false, [0x65, 0x88])], false) == Some(IDR_SLICE)
    ensures Detect(Serialize([NalUnit(false, [0x65, 0x88])]), 0) == H264P
  {
  }

  // ---- Runs over frames ----

  /** One frame given to `extract_stream_params`. */
  datatype FrameInput = FrameInput(channel: nat, data: seq<byte>, alloc: Allocator)

  /** The parameter table after the frames `fs`, channel by channel. */
  function RunParams(table: seq<StreamParams>, fs: seq<FrameInput>): (result: seq<StreamParams>)
    ensures |result| == |table|
  {
    if fs == [] then table
    else
      var before := RunParams(table, fs[..|fs| - 1]);
      var f := fs[|fs| - 1];
      if f.channel >= |before| then before
      else before[f.channel := Extract(before[f.channel], f.data, f.alloc)]
  }

  /** Frames shorter than four bytes come only to channels whose parameters are complete. */
  ghost predicate Scannable(table: seq<StreamParams>, fs: seq<FrameInput>) {
    forall k :: 0 <= k < |fs| && fs[k].channel < |table| ==>
      |fs[k].data| >= 4 || RunParams(table, fs[..k])[fs[k].channel].available
  }

  /** Over any sequence of frames and allocation outcomes, starting from consistent parameters:
      what a channel holds after `i` frames is consistent and is still there after `j` frames,
      and a channel without a frame in between has not changed. */
  lemma {:induction false} ParametersLatch(table: seq<StreamParams>, fs: seq<FrameInput>, i: nat, j: nat, c: nat)
    requires c < |table| && Consistent(table[c])
    requires i <= j <= |fs| && Scannable(table, fs)
    ensures Consistent(RunParams(table, fs[..j])[c])
    ensures Keeps(RunParams(table, fs[..i])[c], RunParams(table, fs[..j])[c])
    ensures (forall k :: i <= k < j ==> fs[k].channel != c) ==>
              RunParams(table, fs[..i])[c] == RunParams(table, fs[..j])[c]
    decreases j
  {
    if j > 0 {
      assert fs[..j][..j - 1] == fs[..j - 1];
      ParametersLatch(table, fs, if i == j then i - 1 else i, j - 1, c);
      var before, f := RunParams(table, fs[..j - 1]), fs[j - 1];
      if f.channel == c && !before[c].available {
        ScanLatches(before[c], f.data, 0, f.alloc);
      }
    }
  }

  /** The units that channel `c` receives over a run, in order. */
  function UnitsOf(fs: seq<FrameInput>, lists: seq<seq<NalUnit>>, c: nat): seq<NalUnit>
    requires |fs| == |lists|
  {
    if fs == [] then []
    else
      UnitsOf(fs[..|fs| - 1], lists[..|fs| - 1], c)
      + if fs[|fs| - 1].channel == c then lists[|fs| - 1] else []
  }

  /** A whole run of printed frames whose allocations succeed: a channel ends up with the first SPS
      and the first PPS of all the units it received, even when they came in different frames. */
  lemma {:induction false} RunStoresFirst(fs: seq<FrameInput>, lists: seq<seq<NalUnit>>, n: nat, c: nat)
    requires |fs| == |lists| && c < n
    requires forall k :: 0 <= k < |fs| ==> fs[k].data == Serialize(lists[k])
    requires forall k, pos :: 0 <= k < |fs| ==> fs[k].alloc(pos)
    requires forall k :: 0 <= k < |fs| ==>
               lists[k] != [] && AllWellFormed(lists[k]) && Visible(lists[k][|lists[k]| - 1], true)
    ensures var r := RunParams(seq(n, _ => EMPTY_PARAMS), fs)[c];
            && r.sps == FirstOfType(UnitsOf(fs, lists, c), SPS)
            && r.pps == FirstOfType(UnitsOf(fs, lists, c), PPS)
            && (r.available <==> r.sps.Some? && r.pps.Some?)
    decreases |fs|
  {
    hide Serialize, Extract, AllWellFormed, Visible;
    var table := seq(n, _ => EMPTY_PARAMS);
    if fs != [] {
      var m := |fs| - 1;
      RunStoresFirst(fs[..m], lists[..m], n, c);
      var before, us := RunParams(table, fs[..m])[c], lists[m];
      if fs[m].channel == c {
        PrintedScannable(table, fs[..m], lists[..m]);
        RunIsConsistent(table, fs[..m], c);
        ExtractSerialized(before, us, fs[m].alloc);
        FirstOfTypeConcat(UnitsOf(fs[..m], lists[..m], c), us, SPS);
        FirstOfTypeConcat(UnitsOf(fs[..m], lists[..m], c), us, PPS);
      } else {
        assert UnitsOf(fs, lists, c) == UnitsOf(fs[..m], lists[..m], c);
      }
    }
  }

  /** Printed frames are never too short. */
  lemma {:induction false} PrintedScannable(table: seq<StreamParams>, fs: seq<FrameInput>, lists: seq<seq<NalUnit>>)
    requires |fs| == |lists|
    requires forall k :: 0 <= k < |fs| ==> lists[k] != [] && AllWellFormed(lists[k]) && fs[k].data == Serialize(lists[k])
    ensures Scannable(table, fs)
  {
    hide Serialize, AllWellFormed, RunParams;
    forall k | 0 <= k < |fs|
      ensures |fs[k].data| >= 4
    {
      SerializeLength(lists[k]);
    }
  }

  lemma {:induction false} RunIsConsistent(table: seq<StreamParams>, fs: seq<FrameInput>, c: nat)
    requires c < |table| && Consistent(table[c]) && Scannable(table, fs)
    ensures Consistent(RunParams(table, fs)[c])
  {
    ParametersLatch(table, fs, 0, |fs|, c);
    assert fs[..|fs|] == fs;
  }
}
