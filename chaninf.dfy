/** Per-channel constants (struct msevi_chaninf): the fixed tables of
    msevi_l15.c for the first two MSG satellites, written into a caller's
    record, and the search over a satellite's list of records in
    src/msevi_l15data.c. Doubles are modelled as reals holding the decimal
    values written in the tables. */
module ChanInf {
  import opened Common
  import opened Channels

  /** struct msevi_chaninf; the fixed-size name buffer holds a string. */
  class ChanInfo {
    var name: string
    var id: int
    var calSlope: real
    var calOffset: real
    var nuC: real
    var f0: real
    var alpha: real
    var beta: real

    constructor (name: string, id: int, calSlope: real, calOffset: real,
                 nuC: real, f0: real, alpha: real, beta: real)
      ensures this.name == name && this.id == id
      ensures this.calSlope == calSlope && this.calOffset == calOffset
      ensures this.nuC == nuC && this.f0 == f0 && this.alpha == alpha && this.beta == beta
    {
      this.name := name;
      this.id := id;
      this.calSlope := calSlope;
      this.calOffset := calOffset;
      this.nuC := nuC;
      this.f0 := f0;
      this.alpha := alpha;
      this.beta := beta;
    }
  }

  const Msg1SatId: int := 321
  const Msg2SatId: int := 322

  /** The four 12-entry tables of one satellite, indexed by channel id - 1. */
  datatype SatTables = SatTables(f0: seq<real>, nu: seq<real>, alpha: seq<real>, beta: seq<real>)
  {
    predicate Valid()
    {
      |f0| == ChannelCount && |nu| == ChannelCount && |alpha| == ChannelCount && |beta| == ChannelCount
    }
  }

  /** Meteosat-8 (MSG1). */
  const Msg1Tables: SatTables := SatTables(
    [65.2296, 73.0127, 62.3715, 15.4566, 0.0, 0.0, 0.0, 0.0, 0.0, 0.0, 0.0, 78.8952],
    [0.0, 0.0, 0.0, 2567.33, 1598.103, 1362.081, 1149.069, 1034.343, 930.647, 839.660, 752.387, 0.0],
    [0.0, 0.0, 0.0, 0.9956, 0.9962, 0.9991, 0.9996, 0.9999, 0.9983, 0.9988, 0.9981, 0.0],
    [0.0, 0.0, 0.0, 3.410, 2.218, 0.478, 0.179, 0.060, 0.625, 0.397, 0.578, 0.0])

  /** Meteosat-9 (MSG2). */
  const Msg2Tables: SatTables := SatTables(
    [65.2065, 73.1869, 61.9923, 15.4566, 0.0, 0.0, 0.0, 0.0, 0.0, 0.0, 0.0, 79.0113],
    [0.0, 0.0, 0.0, 2568.832, 1600.548, 1360.330, 1148.620, 1035.289, 931.700, 836.445, 751.792, 0.0],
    [0.0, 0.0, 0.0, 0.9954, 0.9963, 0.9991, 0.9996, 0.9999, 0.9983, 0.9988, 0.9981, 0.0],
    [0.0, 0.0, 0.0, 3.438, 2.185, 0.470, 0.179, 0.056, 0.640, 0.408, 0.561, 0.0])

  /** The tables of a satellite id; only 321 and 322 have any. */
  function TablesOf(satId: int): (t: Option<SatTables>)
    ensures t.Some? <==> satId == Msg1SatId || satId == Msg2SatId
    ensures t.Some? ==> t.value.Valid()
  {
    if satId == Msg1SatId then Some(Msg1Tables)
    else if satId == Msg2SatId then Some(Msg2Tables)
    else None
  }

  /** Solar channels (1 .. 4 and HRV) carry a solar irradiance f0, thermal
      channels (4 .. 11) a central wave number and the alpha/beta band
      correction; IR_039 has both. */
  predicate Solar(id: int) { 1 <= id <= 4 || id == 12 }
  predicate Thermal(id: int) { 4 <= id <= 11 }

  lemma TablesSplitSolarThermal(satId: int)
    requires satId == Msg1SatId || satId == Msg2SatId
    ensures forall id | 1 <= id <= ChannelCount ::
      (TablesOf(satId).value.f0[id - 1] != 0.0 <==> Solar(id)) &&
      (TablesOf(satId).value.nu[id - 1] != 0.0 <==> Thermal(id)) &&
      (TablesOf(satId).value.alpha[id - 1] != 0.0 <==> Thermal(id)) &&
      (TablesOf(satId).value.beta[id - 1] != 0.0 <==> Thermal(id))
  {
    var t := TablesOf(satId).value;
    forall id | 1 <= id <= ChannelCount
      ensures (t.f0[id - 1] != 0.0 <==> Solar(id)) && (t.nu[id - 1] != 0.0 <==> Thermal(id))
      ensures (t.alpha[id - 1] != 0.0 <==> Thermal(id)) && (t.beta[id - 1] != 0.0 <==> Thermal(id))
    {
      if id == 1 {} else if id == 2 {} else if id == 3 {} else if id == 4 {}
      else if id == 5 {} else if id == 6 {} else if id == 7 {} else if id == 8 {}
      else if id == 9 {} else if id == 10 {} else if id == 11 {} else {}
    }
  }

  /** msevi_get_chaninf of msevi_l15.c: for a known satellite and a channel
      id 1 .. 12, fills the name, the id and that satellite's constants for
      the channel into ci and returns 0; otherwise returns -1 and leaves ci
      alone. The calibration slope and offset are never written. */
  method GetChanInf(satId: int, chanId: int, ci: ChanInfo) returns (r: int)
    modifies ci
    ensures r == 0 || r == -1
    ensures r == 0 <==> TablesOf(satId).Some? && 1 <= chanId <= ChannelCount
    ensures r == -1 ==> unchanged(ci)
    ensures r == 0 ==>
      var t := TablesOf(satId).value;
      && Some(ci.name) == IdToChan(LowerNames, chanId)
      && ci.id == chanId
      && ci.f0 == t.f0[chanId - 1] && ci.nuC == t.nu[chanId - 1]
      && ci.alpha == t.alpha[chanId - 1] && ci.beta == t.beta[chanId - 1]
      && ci.calSlope == old(ci.calSlope) && ci.calOffset == old(ci.calOffset)
  {
    var tables := TablesOf(satId);
    if tables.None? {
      return -1;
    }
    if chanId < 1 || chanId > ChannelCount {
      return -1;
    }
    var t := tables.value;
    ci.name := IdToChan(LowerNames, chanId).value;
    ci.id := chanId;
    ci.f0 := t.f0[chanId - 1];
    ci.nuC := t.nu[chanId - 1];
    ci.alpha := t.alpha[chanId - 1];
    ci.beta := t.beta[chanId - 1];
    return 0;
  }

  /** The ids of a satellite's channel records. */
  function Ids(entries: seq<ChanInfo>): (ids: seq<int>)
    reads set i | 0 <= i < |entries| :: entries[i]
    ensures |ids| == |entries| && forall i | 0 <= i < |entries| :: ids[i] == entries[i].id
  {
    seq(|entries|, i requires 0 <= i < |entries| reads entries => entries[i].id)
  }

  /** msevi_get_chaninf of src/msevi_l15data.c, from entry i on: the index
      of the first record whose id is chanId, or none. */
  function FindFrom(ids: seq<int>, chanId: int, i: nat): (r: Option<nat>)
    requires i <= |ids|
    ensures r.None? <==> forall j | i <= j < |ids| :: ids[j] != chanId
    ensures r.Some? ==> i <= r.value < |ids| && ids[r.value] == chanId
                        && forall j | i <= j < r.value :: ids[j] != chanId
    decreases |ids| - i
  {
    if i == |ids| then None
    else if ids[i] == chanId then Some(i)
    else FindFrom(ids, chanId, i + 1)
  }

  /** msevi_get_chaninf of src/msevi_l15data.c: the first of the 12 records
      of a satellite whose id is chanId, as an index, or none. */
  function FindChanInf(entries: seq<ChanInfo>, chanId: int): (r: Option<nat>)
    requires |entries| == ChannelCount
    reads set i | 0 <= i < |entries| :: entries[i]
    ensures r.None? <==> forall j | 0 <= j < |entries| :: entries[j].id != chanId
    ensures r.Some? ==> r.value < |entries| && entries[r.value].id == chanId
                        && forall j | 0 <= j < r.value :: entries[j].id != chanId
  {
    FindFrom(Ids(entries), chanId, 0)
  }

  /** Records stored in channel order are found at index id - 1. */
  lemma FindInChannelOrder(entries: seq<ChanInfo>, chanId: int)
    requires |entries| == ChannelCount
    requires forall i | 0 <= i < ChannelCount :: entries[i].id == i + 1
    requires 1 <= chanId <= ChannelCount
    ensures FindChanInf(entries, chanId) == Some(chanId - 1)
  {
    assert entries[chanId - 1].id == chanId;
  }
}
