/** The file list of one repeat cycle (msevi_l15hrit_get_flist): every file
    name found is classified by two 6-character fields of its base name,
    the channel field at offset 26 and the segment field at offset 36, into
    the prologue, the epilogue or the next segment slot of its channel. */
module FileLists {
  import opened Common
  import opened Channels

  /** MSEVI_NCHAN + 2 channel rows and MSEVI_NSEG + 2 segment slots per row. */
  const ChannelRows: nat := 14
  const SegmentSlots: nat := 26

  const ChannelFieldOff: nat := 26
  const SegmentFieldOff: nat := 36
  const FieldLen: nat := 6

  /** A file found by the directory search: its full path, which is what
      the list stores, and its base name, which is what is classified. */
  datatype Found = Found(path: string, base: string)

  /** strncpy of at most 6 characters from offset off, stopping at the end
      of the name. */
  function Field(base: string, off: nat): (f: string)
    ensures |f| <= FieldLen
    ensures off <= |base| ==> f == base[off..Min(off + FieldLen, |base|)]
  {
    if |base| <= off then "" else base[off..Min(off + FieldLen, |base|)]
  }


  datatype Kind = PrologueFile | EpilogueFile | SegmentFile(chanId: int)

  /** The segment field starting with PRO or EPI, in any case, marks the
      prologue or the epilogue; any other file is a segment of the channel
      its channel field names (-1 when it names none). */
  function KindOf(f: Found): Kind
  {
    var seg := Field(f.base, SegmentFieldOff);
    if NamePrefixOf("PRO", seg) then PrologueFile
    else if NamePrefixOf("EPI", seg) then EpilogueFile
    else SegmentFile(ChanToId(LowerNames, Field(f.base, ChannelFieldOff)))
  }

  /** A classified file. */
  datatype Entry = Entry(path: string, kind: Kind)

  function Classify(f: Found): Entry
  {
    Entry(f.path, KindOf(f))
  }

  /** The files found, classified one by one. */
  function Classified(fs: seq<Found>): (es: seq<Entry>)
    ensures |es| == |fs| && forall j | 0 <= j < |fs| :: es[j] == Classify(fs[j])
  {
    seq(|fs|, j requires 0 <= j < |fs| => Classify(fs[j]))
  }

  /** The paths of the segment files of channel id, in the order found. */
  function ChannelFiles(es: seq<Entry>, id: int): (ps: seq<string>)
    ensures |ps| <= |es|
  {
    if |es| == 0 then []
    else ChannelFiles(es[..|es| - 1], id)
         + (if es[|es| - 1].kind == SegmentFile(id) then [es[|es| - 1].path] else [])
  }

  /** The path of the last file of kind k, if any: a later prologue or
      epilogue replaces an earlier one. */
  function LastOf(es: seq<Entry>, k: Kind): (p: Option<string>)
    ensures p.None? <==> forall j | 0 <= j < |es| :: es[j].kind != k
    ensures p.Some? ==> Entry(p.value, k) in es
  {
    if |es| == 0 then None
    else if es[|es| - 1].kind == k then Some(es[|es| - 1].path)
    else
      assert es == es[..|es| - 1] + [es[|es| - 1]];
      LastOf(es[..|es| - 1], k)
  }

  /** What the C code relies on of the classification: every segment file
      names a known channel, and no channel has more files than slots. */
  predicate Fits(es: seq<Entry>)
  {
    && (forall j | 0 <= j < |es| :: es[j].kind.SegmentFile? ==> 1 <= es[j].kind.chanId <= ChannelCount)
    && (forall id | 1 <= id <= ChannelCount :: |ChannelFiles(es, id)| <= SegmentSlots)
  }

  /** struct msevi_l15hrit_flist: channel[c] holds the nseg[c] paths filled
      in so far for channel c + 1. */
  class FileList {
    var nseg: seq<int>
    var prologue: Option<string>
    var epilogue: Option<string>
    var channel: seq<seq<string>>

    predicate Valid()
      reads this
    {
      && |nseg| == ChannelRows && |channel| == ChannelRows
      && forall c | 0 <= c < ChannelRows :: nseg[c] == |channel[c]| <= SegmentSlots
    }

    /** The zero-filled allocation. */
    constructor Empty()
      ensures Valid()
      ensures prologue.None? && epilogue.None?
      ensures forall c | 0 <= c < ChannelRows :: channel[c] == []
    {
      nseg := seq(ChannelRows, c => 0);
      prologue := None;
      epilogue := None;
      channel := seq(ChannelRows, c => []);
    }

    /** The list holds exactly the classified files es. */
    predicate Holds(es: seq<Entry>)
      reads this
    {
      && Valid()
      && prologue == LastOf(es, PrologueFile)
      && epilogue == LastOf(es, EpilogueFile)
      && forall c | 0 <= c < ChannelRows :: channel[c] == ChannelFiles(es, c + 1)
    }

    /** One step of the loop: the file goes to the prologue, the epilogue or
        the next slot of its channel. */
    method Add(ghost before: seq<Entry>, e: Entry)
      requires Holds(before) && Fits(before + [e])
      modifies this
      ensures Holds(before + [e])
    {
      ghost var es := before + [e];
      LastOfSnoc(before, e, PrologueFile);
      LastOfSnoc(before, e, EpilogueFile);
      forall id | 1 <= id <= ChannelRows
        ensures ChannelFiles(es, id) == ChannelFiles(before, id) + (if e.kind == SegmentFile(id) then [e.path] else [])
      {
        ChannelFilesSnoc(before, e, id);
      }
      if e.kind == PrologueFile {
        prologue := Some(e.path);
      } else if e.kind == EpilogueFile {
        epilogue := Some(e.path);
      } else {
        var c := e.kind.chanId - 1;
        assert 0 <= c < ChannelCount by {
          assert es[|before|] == e;
        }
        var iseg := nseg[c];
        channel := channel[c := channel[c] + [e.path]];
        nseg := nseg[c := iseg + 1];
        assert |channel[c]| == |ChannelFiles(es, c + 1)| <= SegmentSlots;
      }
    }
  }

  lemma ChannelFilesSnoc(es: seq<Entry>, e: Entry, id: int)
    ensures ChannelFiles(es + [e], id) == ChannelFiles(es, id) + (if e.kind == SegmentFile(id) then [e.path] else [])
  {
    var s := es + [e];
    assert s[..|s| - 1] == es;
  }

  lemma LastOfSnoc(es: seq<Entry>, e: Entry, k: Kind)
    ensures LastOf(es + [e], k) == if e.kind == k then Some(e.path) else LastOf(es, k)
  {
    var s := es + [e];
    assert s[..|s| - 1] == es;
  }

  /** The files of a prefix come first among the files of the whole list. */
  lemma {:induction false} ChannelFilesOfPrefix(es: seq<Entry>, i: nat, id: int)
    requires i <= |es|
    ensures ChannelFiles(es[..i], id) <= ChannelFiles(es, id)
    decreases |es| - i
  {
    if i < |es| {
      ChannelFilesOfPrefix(es, i + 1, id);
      var q := es[..i + 1];
      assert q[..|q| - 1] == es[..i];
    } else {
      assert es[..i] == es;
    }
  }

  lemma FitsPrefix(es: seq<Entry>, i: nat)
    requires Fits(es) && i <= |es|
    ensures Fits(es[..i])
  {
    forall id | 1 <= id <= ChannelCount
      ensures |ChannelFiles(es[..i], id)| <= |ChannelFiles(es, id)|
    {
      ChannelFilesOfPrefix(es, i, id);
    }
  }

  /** A prefix of a list that fits is one entry longer than the prefix before. */
  lemma PrefixStep(es: seq<Entry>, i: nat)
    requires i < |es| && Fits(es)
    ensures es[..i + 1] == es[..i] + [es[i]]
    ensures Fits(es[..i + 1])
  {
    FitsPrefix(es, i + 1);
  }

  /** msevi_l15hrit_get_flist over the files the directory search found:
      each one is classified by its base name and filed. */
  method GetFileList(fs: seq<Found>) returns (fl: FileList)
    requires forall j | 0 <= j < |fs| :: |fs[j].base| >= SegmentFieldOff
    requires Fits(Classified(fs))
    ensures fl.Holds(Classified(fs))
  {
    ghost var all := Classified(fs);
    fl := new FileList.Empty();
    var i := 0;
    while i < |fs|
      invariant 0 <= i <= |fs|
      invariant fl.Holds(all[..i])
    {
      var e := Entry(fs[i].path, KindOf(fs[i]));
      PrefixStep(all, i);
      fl.Add(all[..i], e);
      i := i + 1;
    }
    assert all[..i] == all;
  }

  /** Every segment file of a channel is in that channel's list, and the
      list holds nothing else. */
  lemma {:induction false} ChannelFilesAreTheSegments(es: seq<Entry>, id: int, p: string)
    ensures p in ChannelFiles(es, id) <==> Entry(p, SegmentFile(id)) in es
  {
    if |es| > 0 {
      var init := es[..|es| - 1];
      ChannelFilesAreTheSegments(init, id, p);
      assert es == init + [es[|es| - 1]];
    }
  }

  /** Filing keeps the order of the search: the files of two lists found
      one after the other are those of the first followed by those of the
      second. */
  lemma {:induction false} ChannelFilesAppend(a: seq<Entry>, b: seq<Entry>, id: int)
    ensures ChannelFiles(a + b, id) == ChannelFiles(a, id) + ChannelFiles(b, id)
    decreases |b|
  {
    if |b| == 0 {
      assert a + b == a;
    } else {
      var ab := a + b;
      assert ab[..|ab| - 1] == a + b[..|b| - 1];
      assert ab[|ab| - 1] == b[|b| - 1];
      ChannelFilesAppend(a, b[..|b| - 1], id);
    }
  }

  /** A later prologue or epilogue replaces an earlier one: of two lists
      found one after the other, the second decides when it has one. */
  lemma {:induction false} LastOfAppend(a: seq<Entry>, b: seq<Entry>, k: Kind)
    ensures LastOf(a + b, k) == if LastOf(b, k).Some? then LastOf(b, k) else LastOf(a, k)
    decreases |b|
  {
    if |b| == 0 {
      assert a + b == a;
    } else {
      var init := b[..|b| - 1];
      assert a + b == (a + init) + [b[|b| - 1]];
      LastOfSnoc(a + init, b[|b| - 1], k);
      LastOfSnoc(init, b[|b| - 1], k);
      assert b == init + [b[|b| - 1]];
      LastOfAppend(a, init, k);
    }
  }

  /** The number of files in the lists of channels 1 .. n. */
  function SegmentsUpTo(es: seq<Entry>, n: nat): nat
  {
    if n == 0 then 0 else SegmentsUpTo(es, n - 1) + |ChannelFiles(es, n)|
  }

  /** The number of prologue and epilogue files. */
  function HeaderFiles(es: seq<Entry>): (n: nat)
    ensures n <= |es|
  {
    if |es| == 0 then 0
    else HeaderFiles(es[..|es| - 1]) + (if es[|es| - 1].kind.SegmentFile? then 0 else 1)
  }

  lemma {:induction false} SegmentsUpToStep(es: seq<Entry>, n: nat)
    requires |es| > 0
    ensures SegmentsUpTo(es, n) == SegmentsUpTo(es[..|es| - 1], n)
              + (if es[|es| - 1].kind.SegmentFile? && 1 <= es[|es| - 1].kind.chanId <= n then 1 else 0)
  {
    if n > 0 {
      SegmentsUpToStep(es, n - 1);
    }
  }

  lemma {:induction false} SegmentsUpToZero(es: seq<Entry>, n: nat)
    requires |es| == 0
    ensures SegmentsUpTo(es, n) == 0
  {
    if n > 0 {
      SegmentsUpToZero(es, n - 1);
    }
  }

  /** Every file found is counted once: as a prologue or epilogue file or
      in exactly one of the twelve channel lists. */
  lemma {:induction false} EveryFileListedOnce(es: seq<Entry>)
    requires forall j | 0 <= j < |es| :: es[j].kind.SegmentFile? ==> 1 <= es[j].kind.chanId <= ChannelCount
    ensures HeaderFiles(es) + SegmentsUpTo(es, ChannelCount) == |es|
  {
    if |es| > 0 {
      var init := es[..|es| - 1];
      EveryFileListedOnce(init);
      SegmentsUpToStep(es, ChannelCount);
    } else {
      SegmentsUpToZero(es, ChannelCount);
    }
  }

  /** A name of the form used by the ground segment, with the channel
      field at offset 26 and the segment field at offset 36. */
  function NameWith(chan: string, seg: string): (name: string)
    requires |chan| == FieldLen && |seg| == FieldLen
    ensures Field(name, ChannelFieldOff) == chan && Field(name, SegmentFieldOff) == seg
  {
    var head := "H-000-MSG1__-MSG1________-";
    var name := head + chan + "___-" + seg + "___-200601011200-C_";
    assert name[26..32] == chan;
    assert name[36..42] == seg;
    name
  }

  /** An HRV segment file of the ground segment's naming is filed under
      channel 12. */
  lemma HrvSegmentName()
    ensures KindOf(Found("d/x", NameWith("HRV___", "000003"))) == SegmentFile(12)
  {
    assert !NamePrefixOf("PRO", "000003") by {
      assert ToLower("PRO"[0]) != ToLower("000003"[0]);
    }
    assert !NamePrefixOf("EPI", "000003") by {
      assert ToLower("EPI"[0]) != ToLower("000003"[0]);
    }
    PaddedNameFound();
  }

  /** A prologue file is recognised by its segment field alone. */
  lemma PrologueName()
    ensures KindOf(Found("d/y", NameWith("______", "PRO___"))) == PrologueFile
  {
    assert NamePrefixOf("PRO", "PRO___");
  }
}
