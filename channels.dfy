/** The SEVIRI channel tables: channel name to id (1 .. 12) by a
    case-insensitive prefix match, id to name, and the per-satellite
    channel constants. The name table appears four times in the
    repository: in upper case in msevi.c and in lower case in mseviri.c,
    msevi_l15.c and src/msevi_l15data.c. */
module Channels {
  import opened Common

  const ChannelCount: nat := 12

  /** The table of msevi.c. */
  const UpperNames: seq<string> := [
    "VIS006", "VIS008", "IR_016", "IR_039", "WV_062", "WV_073",
    "IR_087", "IR_097", "IR_108", "IR_120", "IR_134", "HRV"]

  /** The table of mseviri.c, msevi_l15.c and src/msevi_l15data.c. */
  const LowerNames: seq<string> := [
    "vis006", "vis008", "ir_016", "ir_039", "wv_062", "wv_073",
    "ir_087", "ir_097", "ir_108", "ir_120", "ir_134", "hrv"]

  /** `strncasecmp(name, chan, strlen(name)) == 0`: chan starts with name,
      letters compared without regard to case. A chan shorter than name
      ends in its terminating NUL where name still has a character, so it
      does not match. */
  predicate NamePrefixOf(name: string, chan: string)
  {
    |name| <= |chan| && forall k | 0 <= k < |name| :: ToLower(name[k]) == ToLower(chan[k])
  }

  /** msevi_chan2id: the search from table entry i on. */
  function FindChannel(table: seq<string>, chan: string, i: nat): (id: int)
    requires i <= |table|
    ensures id == -1 || i < id <= |table|
    ensures id == -1 ==> forall j | i <= j < |table| :: !NamePrefixOf(table[j], chan)
    ensures id != -1 ==> NamePrefixOf(table[id - 1], chan)
                         && forall j | i <= j < id - 1 :: !NamePrefixOf(table[j], chan)
    decreases |table| - i
  {
    if i == |table| then -1
    else if NamePrefixOf(table[i], chan) then i + 1
    else FindChannel(table, chan, i + 1)
  }

  /** msevi_chan2id: the 1-based index of the first table name that chan
      starts with, or -1. */
  function ChanToId(table: seq<string>, chan: string): (id: int)
    ensures id == -1 || 1 <= id <= |table|
    ensures id == -1 <==> forall j | 0 <= j < |table| :: !NamePrefixOf(table[j], chan)
    ensures id != -1 ==> NamePrefixOf(table[id - 1], chan)
                         && forall j | 0 <= j < id - 1 :: !NamePrefixOf(table[j], chan)
  {
    FindChannel(table, chan, 0)
  }

  /** msevi_id2chan: the table name for ids 1 .. 12, NULL otherwise. */
  function IdToChan(table: seq<string>, id: int): (name: Option<string>)
    requires |table| == ChannelCount
    ensures name.Some? <==> 1 <= id <= ChannelCount
    ensures name.Some? ==> name.value == table[id - 1]
  {
    if 1 <= id <= ChannelCount then Some(table[id - 1]) else None
  }

  /** Entry i of one table and entry i of the other differ in case only. */
  predicate SameUpToCase(a: string, b: string)
  {
    |a| == |b| && forall k | 0 <= k < |a| :: ToLower(a[k]) == ToLower(b[k])
  }

  lemma TablesSameUpToCase()
    ensures |UpperNames| == |LowerNames| == ChannelCount
    ensures forall i | 0 <= i < ChannelCount :: SameUpToCase(UpperNames[i], LowerNames[i])
  {
    forall i | 0 <= i < ChannelCount
      ensures SameUpToCase(UpperNames[i], LowerNames[i])
    {
      var u := UpperNames[i];
      var l := LowerNames[i];
      forall k | 0 <= k < |u|
        ensures ToLower(u[k]) == ToLower(l[k])
      {
      }
    }
  }

  lemma PrefixUpToCase(a: string, b: string, chan: string)
    requires SameUpToCase(a, b)
    ensures NamePrefixOf(a, chan) <==> NamePrefixOf(b, chan)
  {
  }

  /** The upper case table of msevi.c and the lower case table of the other
      three files give every string the same id. */
  lemma {:induction false} TablesAgree(chan: string)
    ensures ChanToId(UpperNames, chan) == ChanToId(LowerNames, chan)
  {
    TablesSameUpToCase();
    forall j | 0 <= j < ChannelCount
      ensures NamePrefixOf(UpperNames[j], chan) <==> NamePrefixOf(LowerNames[j], chan)
    {
      PrefixUpToCase(UpperNames[j], LowerNames[j], chan);
    }
  }

  /** Characters that differ after case folding keep a name from matching. */
  lemma Mismatch(name: string, chan: string, k: nat)
    requires k < |name| && k < |chan| && ToLower(name[k]) != ToLower(chan[k])
    ensures !NamePrefixOf(name, chan)
  {
  }

  /** No lower case table name starts another: "hrv" is told apart by its
      first character, the six-character names by their first, fifth or
      sixth. */
  lemma LowerNamesDiffer(i: nat, j: nat)
    requires i < ChannelCount && j < ChannelCount && i != j
    ensures !NamePrefixOf(LowerNames[i], LowerNames[j])
  {
    var a, b := LowerNames[i], LowerNames[j];
    if i == 11 || j == 11 || ToLower(a[0]) != ToLower(b[0]) {
      Mismatch(a, b, 0);
    } else if ToLower(a[4]) != ToLower(b[4]) {
      Mismatch(a, b, 4);
    } else {
      Mismatch(a, b, 5);
    }
  }

  /** Upper and lower case versions of a string are matched by the same
      names. */
  lemma MatchUpToCase(name: string, chan: string, chan': string)
    requires SameUpToCase(chan, chan')
    ensures NamePrefixOf(name, chan) <==> NamePrefixOf(name, chan')
  {
  }

  /** The search stops at the first entry that matches. */
  lemma FirstMatch(table: seq<string>, chan: string, i: nat)
    requires i < |table| && NamePrefixOf(table[i], chan)
    requires forall j | 0 <= j < i :: !NamePrefixOf(table[j], chan)
    ensures ChanToId(table, chan) == i + 1
  {
  }

  /** Looking up the name of an id gives the id back in the lower case
      table. */
  lemma LowerIdRoundTrip(id: int)
    requires 1 <= id <= ChannelCount
    ensures ChanToId(LowerNames, IdToChan(LowerNames, id).value) == id
  {
    var name := LowerNames[id - 1];
    forall j | 0 <= j < id - 1
      ensures !NamePrefixOf(LowerNames[j], name)
    {
      LowerNamesDiffer(j, id - 1);
    }
    FirstMatch(LowerNames, name, id - 1);
  }

  /** Looking up the name of an id gives the id back in the upper case
      table. */
  lemma UpperIdRoundTrip(id: int)
    requires 1 <= id <= ChannelCount
    ensures ChanToId(UpperNames, IdToChan(UpperNames, id).value) == id
  {
    var name := LowerNames[id - 1];
    var upper := UpperNames[id - 1];
    TablesSameUpToCase();
    forall j | 0 <= j < id - 1
      ensures !NamePrefixOf(LowerNames[j], upper)
    {
      LowerNamesDiffer(j, id - 1);
      MatchUpToCase(LowerNames[j], upper, name);
    }
    MatchUpToCase(name, upper, name);
    FirstMatch(LowerNames, upper, id - 1);
    TablesAgree(upper);
  }

  /** A channel field of a file name padded with underscores is found,
      whatever its case. */
  lemma PaddedNameFound()
    ensures ChanToId(LowerNames, "HRV___") == 12
  {
    forall j | 0 <= j < 11
      ensures !NamePrefixOf(LowerNames[j], "HRV___")
    {
      Mismatch(LowerNames[j], "HRV___", 0);
    }
    FirstMatch(LowerNames, "HRV___", 11);
  }

  /** A string that only starts a table name matches none. */
  lemma ShortNameNotFound()
    ensures ChanToId(LowerNames, "ir_0") == -1
  {
    forall j | 0 <= j < ChannelCount
      ensures !NamePrefixOf(LowerNames[j], "ir_0")
    {
      if j == 11 {
        Mismatch(LowerNames[j], "ir_0", 0);
      } else {
        assert |LowerNames[j]| == 6;
      }
    }
  }
}
