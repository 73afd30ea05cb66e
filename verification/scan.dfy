/**
 The pairing half of `scanImagePairsInSubfolders` (src/main.cpp): every
 regular file whose name ends in `_TV.{jpg,png,bmp}` or `_DRC.{jpg,png,bmp}`
 fills one slot of the pair keyed by its base name (the name up to its last
 `_`); each key then becomes one entry on the row-major grid. The directory
 walk is an input list of records; the hash map's iteration order is a free
 choice of the scan.
 */
module Scan {
  import opened Grid

  datatype Option<T> = None | Some(value: T)

  /** One file met by the recursive walk: its bare file name and its full path. */
  datatype FileRecord = FileRecord(name: string, path: string, regular: bool)

  /** Which half of a pair a file fills. */
  datatype Slot = TV | DRC

  /** The (TV path, DRC path) pair collected under one base name. */
  type Halves = (string, string)

  /** `fileEndsWith`: the size guard, then a comparison from the back. */
  function EndsWith(f: string, e: string): (r: bool)
    ensures r <==> |e| <= |f| && f[|f| - |e|..] == e
  {
    |f| >= |e| && EqualFromBack(f, e)
  }

  /** `std::equal` over the reverse iterators of `e` and `f`. */
  function EqualFromBack(f: string, e: string): (r: bool)
    requires |e| <= |f|
    ensures r <==> f[|f| - |e|..] == e
    decreases |e|
  {
    if |e| == 0 then true
    else
      var f', e' := f[..|f| - 1], e[..|e| - 1];
      assert f[|f| - |e|..] == f'[|f'| - |e'|..] + [f[|f| - 1]];
      assert e == e' + [e[|e| - 1]];
      f[|f| - 1] == e[|e| - 1] && EqualFromBack(f', e')
  }

  const TVSuffixes: seq<string> := ["_TV.jpg", "_TV.png", "_TV.bmp"]
  const DRCSuffixes: seq<string> := ["_DRC.jpg", "_DRC.png", "_DRC.bmp"]

  predicate EndsWithOneOf(f: string, sfx: seq<string>) {
    exists i :: 0 <= i < |sfx| && EndsWith(f, sfx[i])
  }

  /** The classification chain of the walk: TV suffixes first, then DRC suffixes. */
  function Classify(name: string): Option<Slot> {
    if EndsWith(name, "_TV.jpg") || EndsWith(name, "_TV.png") || EndsWith(name, "_TV.bmp") then Some(TV)
    else if EndsWith(name, "_DRC.jpg") || EndsWith(name, "_DRC.png") || EndsWith(name, "_DRC.bmp") then Some(DRC)
    else None
  }

  /** A name is classified TV exactly when it ends in a TV suffix, DRC exactly
      when it ends in a DRC suffix, and ignored otherwise; the order of the
      chain does not matter because no name ends in both kinds. */
  lemma ClassifyMeaning(name: string)
    ensures Classify(name) == Some(TV) <==> EndsWithOneOf(name, TVSuffixes)
    ensures Classify(name) == Some(DRC) <==> EndsWithOneOf(name, DRCSuffixes)
    ensures Classify(name) == None <==> !EndsWithOneOf(name, TVSuffixes) && !EndsWithOneOf(name, DRCSuffixes)
  {
    if EndsWithOneOf(name, TVSuffixes) {
      NoDRCSuffixAfterTV(name);
    }
    if EndsWith(name, "_TV.jpg") || EndsWith(name, "_TV.png") || EndsWith(name, "_TV.bmp") {
      assert EndsWith(name, TVSuffixes[0]) || EndsWith(name, TVSuffixes[1]) || EndsWith(name, TVSuffixes[2]);
    }
    if EndsWith(name, "_DRC.jpg") || EndsWith(name, "_DRC.png") || EndsWith(name, "_DRC.bmp") {
      assert EndsWith(name, DRCSuffixes[0]) || EndsWith(name, DRCSuffixes[1]) || EndsWith(name, DRCSuffixes[2]);
    }
  }

  /** A name cannot end in both a TV and a DRC suffix: the character seven
      from the end is `_` for the first and `D` for the second. */
  lemma NoDRCSuffixAfterTV(name: string)
    requires EndsWithOneOf(name, TVSuffixes)
    ensures !EndsWithOneOf(name, DRCSuffixes)
  {
    var i :| 0 <= i < |TVSuffixes| && EndsWith(name, TVSuffixes[i]);
    var t := TVSuffixes[i];
    assert |t| == 7 && t[0] == '_';
    assert name[|name| - 7..] == t;
    assert name[|name| - 7] == '_';
    if j :| 0 <= j < |DRCSuffixes| && EndsWith(name, DRCSuffixes[j]) {
      var d := DRCSuffixes[j];
      assert |d| == 8 && d[1] == 'D';
      assert name[|name| - 8..] == d;
      assert name[|name| - 7] == 'D';
    }
  }

  /** The suffix a classified name ends with. */
  function MatchedSuffix(name: string): (sfx: string)
    requires Classify(name).Some?
    ensures EndsWith(name, sfx)
    ensures sfx in TVSuffixes || sfx in DRCSuffixes
  {
    if EndsWith(name, "_TV.jpg") then "_TV.jpg"
    else if EndsWith(name, "_TV.png") then "_TV.png"
    else if EndsWith(name, "_TV.bmp") then "_TV.bmp"
    else if EndsWith(name, "_DRC.jpg") then "_DRC.jpg"
    else if EndsWith(name, "_DRC.png") then "_DRC.png"
    else "_DRC.bmp"
  }

  /** Each recognised suffix starts with its only `_`. */
  lemma SuffixShape(sfx: string)
    requires sfx in TVSuffixes || sfx in DRCSuffixes
    ensures |sfx| > 0 && sfx[0] == '_' && forall j :: 0 < j < |sfx| ==> sfx[j] != '_'
  {
    assert '_' !in sfx[1..];
    forall j | 0 < j < |sfx| ensures sfx[j] != '_' {
      assert sfx[j] == sfx[1..][j - 1];
    }
  }

  /** `find_last_of`: the last index holding `c`, if any. */
  function LastIndexOf(s: string, c: char): (r: Option<nat>)
    ensures r.Some? ==> r.value < |s| && s[r.value] == c && forall j :: r.value < j < |s| ==> s[j] != c
    ensures r.None? ==> forall j :: 0 <= j < |s| ==> s[j] != c
  {
    if |s| == 0 then None
    else if s[|s| - 1] == c then Some(|s| - 1)
    else LastIndexOf(s[..|s| - 1], c)
  }

  /** `filename.substr(0, filename.find_last_of('_'))`; with no `_` the whole name. */
  function BaseName(name: string): string {
    match LastIndexOf(name, '_')
    case None => name
    case Some(i) => name[..i]
  }

  /** For a classified file the base name and the matched suffix rebuild the name. */
  lemma ClassifiedNameSplits(name: string)
    requires Classify(name).Some?
    ensures BaseName(name) + MatchedSuffix(name) == name
  {
    var sfx := MatchedSuffix(name);
    var k := |name| - |sfx|;
    SuffixShape(sfx);
    assert name[k..] == sfx;
    assert name[k] == '_';
    match LastIndexOf(name, '_')
    case None =>
      assert false;
    case Some(i) =>
      assert i == k;
      assert name[..k] + name[k..] == name;
  }

  /** What a walked file contributes: its base name and slot, or nothing when
      it is not a regular file or has no recognised suffix. */
  function Key(r: FileRecord): Option<(string, Slot)> {
    if !r.regular then None
    else match Classify(r.name)
      case None => None
      case Some(slot) => Some((BaseName(r.name), slot))
  }

  /** A walked file reduced to what the grouping loop reads from it. */
  datatype Tagged = Tagged(key: Option<(string, Slot)>, path: string)

  function Tag(r: FileRecord): Tagged {
    Tagged(Key(r), r.path)
  }

  function Tags(rs: seq<FileRecord>): (ts: seq<Tagged>)
    ensures |ts| == |rs| && forall i :: 0 <= i < |rs| ==> ts[i] == Tag(rs[i])
  {
    seq(|rs|, i requires 0 <= i < |rs| => Tag(rs[i]))
  }

  function Half(h: Halves, slot: Slot): string {
    if slot == TV then h.0 else h.1
  }

  function WithHalf(h: Halves, slot: Slot, path: string): (h': Halves)
    ensures Half(h', slot) == path
    ensures forall other :: other != slot ==> Half(h', other) == Half(h, other)
  {
    if slot == TV then (path, h.1) else (h.0, path)
  }

  /** One iteration of the walk loop: `baseFilenames[base].first/second = path`,
      default-inserting an empty pair for a new key. */
  function AddTagged(g: map<string, Halves>, t: Tagged): map<string, Halves> {
    match t.key
    case None => g
    case Some((b, slot)) => g[b := WithHalf(if b in g then g[b] else ("", ""), slot, t.path)]
  }

  /** The map after walking all of `ts` in order. */
  function GroupTagged(ts: seq<Tagged>): map<string, Halves>
    decreases |ts|
  {
    if |ts| == 0 then map[] else AddTagged(GroupTagged(ts[..|ts| - 1]), ts[|ts| - 1])
  }

  /** `baseFilenames` after the whole walk. */
  function Group(rs: seq<FileRecord>): map<string, Halves> {
    GroupTagged(Tags(rs))
  }

  /** The keys are exactly the base names of contributing files. */
  lemma {:induction false} GroupTaggedKeys(ts: seq<Tagged>, b: string)
    ensures b in GroupTagged(ts) <==> exists i, slot :: 0 <= i < |ts| && ts[i].key == Some((b, slot))
    decreases |ts|
  {
    if |ts| > 0 {
      var n := |ts| - 1;
      var p := ts[..n];
      GroupTaggedKeys(p, b);
      if b in GroupTagged(ts) && ts[n].key != Some((b, TV)) && ts[n].key != Some((b, DRC)) {
        var i, slot :| 0 <= i < n && p[i].key == Some((b, slot));
        assert ts[i].key == Some((b, slot));
      }
      if exists i, slot :: 0 <= i < |ts| && ts[i].key == Some((b, slot)) {
        var i, slot :| 0 <= i < |ts| && ts[i].key == Some((b, slot));
        if i < n {
          assert p[i].key == Some((b, slot));
        }
      }
    }
  }

  /** Each slot of a key holds the path of the LAST file that filled it, and
      stays empty when no file did. */
  lemma {:induction false} GroupTaggedHalfIsLast(ts: seq<Tagged>, b: string, slot: Slot)
    requires b in GroupTagged(ts)
    ensures (forall i :: 0 <= i < |ts| ==> ts[i].key != Some((b, slot))) ==> Half(GroupTagged(ts)[b], slot) == ""
    ensures forall i :: 0 <= i < |ts| && ts[i].key == Some((b, slot)) && (forall j :: i < j < |ts| ==> ts[j].key != Some((b, slot)))
                        ==> Half(GroupTagged(ts)[b], slot) == ts[i].path
    decreases |ts|
  {
    var n := |ts| - 1;
    var p := ts[..n];
    var t := ts[n];
    assert forall i :: 0 <= i < n ==> p[i] == ts[i];
    if t.key == Some((b, slot)) {
      assert Half(GroupTagged(ts)[b], slot) == t.path;
    } else if b in GroupTagged(p) {
      GroupTaggedHalfIsLast(p, b, slot);
      assert Half(GroupTagged(ts)[b], slot) == Half(GroupTagged(p)[b], slot);
    } else {
      assert Half(GroupTagged(ts)[b], slot) == "";
      GroupTaggedKeys(p, b);
    }
  }

  /** Every key has a slot holding the path of a file of that base name. */
  lemma {:induction false} GroupTaggedWitness(ts: seq<Tagged>, b: string)
    requires b in GroupTagged(ts)
    ensures exists slot, i :: 0 <= i < |ts| && ts[i].key == Some((b, slot)) && Half(GroupTagged(ts)[b], slot) == ts[i].path
    decreases |ts|
  {
    var n := |ts| - 1;
    var p := ts[..n];
    var t := ts[n];
    if t.key.Some? && t.key.value.0 == b {
      var slot := t.key.value.1;
      assert ts[n].key == Some((b, slot)) && Half(GroupTagged(ts)[b], slot) == ts[n].path;
    } else {
      assert GroupTagged(ts)[b] == GroupTagged(p)[b];
      GroupTaggedWitness(p, b);
      var slot, i :| 0 <= i < n && p[i].key == Some((b, slot)) && Half(GroupTagged(p)[b], slot) == p[i].path;
      assert ts[i].key == Some((b, slot)) && Half(GroupTagged(ts)[b], slot) == ts[i].path;
    }
  }

  /** A non-empty slot holds the path of some file of that base name and slot. */
  lemma {:induction false} GroupTaggedHalfOrigin(ts: seq<Tagged>, b: string, slot: Slot)
    requires b in GroupTagged(ts) && Half(GroupTagged(ts)[b], slot) != ""
    ensures exists i :: 0 <= i < |ts| && ts[i].key == Some((b, slot)) && ts[i].path == Half(GroupTagged(ts)[b], slot)
    decreases |ts|
  {
    var n := |ts| - 1;
    var p := ts[..n];
    var t := ts[n];
    if t.key == Some((b, slot)) {
      assert ts[n].path == Half(GroupTagged(ts)[b], slot);
    } else {
      assert b in GroupTagged(p) && Half(GroupTagged(p)[b], slot) == Half(GroupTagged(ts)[b], slot);
      GroupTaggedHalfOrigin(p, b, slot);
      var i :| 0 <= i < n && p[i].key == Some((b, slot)) && p[i].path == Half(GroupTagged(p)[b], slot);
      assert ts[i].key == Some((b, slot));
    }
  }

  /** The tagged files that contribute to some pair, in walk order. */
  function Contributing(ts: seq<Tagged>): (cs: seq<Tagged>)
    ensures forall t :: t in cs <==> t in ts && t.key.Some?
  {
    if |ts| == 0 then []
    else Contributing(ts[..|ts| - 1]) + (if ts[|ts| - 1].key.Some? then [ts[|ts| - 1]] else [])
  }

  /** Unclassified files and non-regular entries contribute nothing: grouping
      the walk equals grouping only its contributing files. */
  lemma {:induction false} GroupIgnoresOthers(ts: seq<Tagged>)
    ensures GroupTagged(Contributing(ts)) == GroupTagged(ts)
    decreases |ts|
  {
    if |ts| > 0 {
      var p := ts[..|ts| - 1];
      var t := ts[|ts| - 1];
      GroupIgnoresOthers(p);
      if t.key.Some? {
        var cs := Contributing(p) + [t];
        assert Contributing(ts) == cs;
        assert cs[..|cs| - 1] == Contributing(p);
        assert GroupTagged(cs) == AddTagged(GroupTagged(Contributing(p)), t);
      } else {
        assert Contributing(ts) == Contributing(p);
        assert GroupTagged(ts) == GroupTagged(p);
      }
    }
  }

  /** The entry built from one key's pair as the k-th result of the scan. */
  function MakeEntry(h: Halves, k: nat): Entry {
    Entry(h.0, h.1, CellX(k), CellY(k), false)
  }

  predicate NoDuplicates<T(==)>(s: seq<T>) {
    forall i, j :: 0 <= i < j < |s| ==> s[i] != s[j]
  }

  /** `scanImagePairsInSubfolders`: `None` is a missing or non-directory root.
      The entries follow `order`, some duplicate-free enumeration of the keys
      (the hash map's iteration order, left unspecified). */
  method ScanImagePairs(root: Option<seq<FileRecord>>) returns (entries: seq<Entry>, ghost order: seq<string>)
    ensures root.None? ==> entries == []
    ensures root.Some? ==> NoDuplicates(order) && (forall b :: b in order <==> b in Group(root.value))
    ensures |entries| == |order|
    ensures root.Some? ==> forall k :: 0 <= k < |entries| ==> entries[k] == MakeEntry(Group(root.value)[order[k]], k)
    ensures LaidOut(entries) && forall k :: 0 <= k < |entries| ==> !entries[k].selected
  {
    if root.None? {
      return [], [];
    }
    var g := GroupWalk(root.value);
    entries, order := EnumerateKeys(g);
  }

  /** The walk loop: one `AddTagged` per walked file, in walk order. */
  method GroupWalk(rs: seq<FileRecord>) returns (g: map<string, Halves>)
    ensures g == Group(rs)
  {
    g := map[];
    var i := 0;
    while i < |rs|
      invariant 0 <= i <= |rs|
      invariant g == GroupTagged(Tags(rs)[..i])
    {
      assert Tags(rs)[..i + 1][..i] == Tags(rs)[..i];
      g := AddTagged(g, Tag(rs[i]));
      i := i + 1;
    }
    assert Tags(rs)[..|rs|] == Tags(rs);
  }

  /** The range-for over the map: each key, in some order, becomes the next entry. */
  method EnumerateKeys(g: map<string, Halves>) returns (entries: seq<Entry>, ghost order: seq<string>)
    ensures NoDuplicates(order) && (forall b :: b in order <==> b in g)
    ensures |entries| == |order|
    ensures forall k :: 0 <= k < |entries| ==> entries[k] == MakeEntry(g[order[k]], k)
    ensures LaidOut(entries) && forall k :: 0 <= k < |entries| ==> !entries[k].selected
  {
    var remaining := g.Keys;
    entries, order := [], [];
    while remaining != {}
      invariant remaining <= g.Keys
      invariant forall b :: b in g <==> b in remaining || b in order
      invariant forall b :: b in order ==> b !in remaining
      invariant NoDuplicates(order)
      invariant |entries| == |order|
      invariant forall k :: 0 <= k < |entries| ==> entries[k] == MakeEntry(g[order[k]], k)
      decreases |remaining|
    {
      var b :| b in remaining;
      entries := entries + [MakeEntry(g[b], |entries|)];
      order := order + [b];
      remaining := remaining - {b};
    }
  }

  /** What the walk guarantees about its records: every path is non-empty and
      a path determines its file name. */
  predicate WalkConsistent(rs: seq<FileRecord>) {
    && (forall i :: 0 <= i < |rs| ==> rs[i].path != "")
    && (forall i, j :: 0 <= i < |rs| && 0 <= j < |rs| && rs[i].path == rs[j].path ==> rs[i].name == rs[j].name)
  }

  /** The scan's entries of a consistent walk each have a path, and no two of
      them are equal under `operator==` (so later lookups by `std::find` hit
      the intended entry). */
  lemma ScanEntriesDistinct(rs: seq<FileRecord>, entries: seq<Entry>, order: seq<string>)
    requires WalkConsistent(rs)
    requires NoDuplicates(order) && forall b :: b in order ==> b in Group(rs)
    requires |entries| == |order|
    requires forall k :: 0 <= k < |entries| ==> entries[k] == MakeEntry(Group(rs)[order[k]], k)
    ensures PathsDistinct(entries)
    ensures forall k :: 0 <= k < |entries| ==> entries[k].pathTV != "" || entries[k].pathDRC != ""
  {
    var ts := Tags(rs);
    var g := Group(rs);
    forall k | 0 <= k < |entries| ensures entries[k].pathTV != "" || entries[k].pathDRC != "" {
      GroupTaggedWitness(ts, order[k]);
      var slot, x :| 0 <= x < |ts| && ts[x].key == Some((order[k], slot)) && Half(g[order[k]], slot) == ts[x].path;
      assert rs[x].path != "";
    }
    forall i, j | 0 <= i < j < |entries| ensures !SamePaths(entries[i], entries[j]) {
      if SamePaths(entries[i], entries[j]) {
        var bi, bj := order[i], order[j];
        GroupTaggedWitness(ts, bi);
        var slot, x :| 0 <= x < |ts| && ts[x].key == Some((bi, slot)) && Half(g[bi], slot) == ts[x].path;
        assert Half(g[bj], slot) == Half(g[bi], slot) && rs[x].path != "";
        GroupTaggedHalfOrigin(ts, bj, slot);
        assert false;
      }
    }
  }

  lemma BaseNameOfClassified(name: string, b: string, sfx: string)
    requires Classify(name).Some? && MatchedSuffix(name) == sfx && name == b + sfx
    ensures BaseName(name) == b
  {
    ClassifiedNameSplits(name);
    assert BaseName(name) == name[..|name| - |sfx|];
    assert name[..|name| - |sfx|] == b;
  }

  /** A regular file named `b_TV.ext` or `b_DRC.ext` fills that slot of key `b`,
      whatever `b` holds (underscores included). */
  lemma KeyOfSuffixed(b: string, sfx: string, path: string)
    requires sfx in TVSuffixes || sfx in DRCSuffixes
    ensures Key(FileRecord(b + sfx, path, true)) == Some((b, if sfx in TVSuffixes then TV else DRC))
  {
    var name := b + sfx;
    assert name[|name| - |sfx|..] == sfx;
    var slot := if sfx in TVSuffixes then TV else DRC;
    if sfx in TVSuffixes {
      assert EndsWithOneOf(name, TVSuffixes);
    } else {
      assert EndsWithOneOf(name, DRCSuffixes);
    }
    ClassifyMeaning(name);
    assert Classify(name) == Some(slot);
    ClassifiedNameSplits(name);
    var m := MatchedSuffix(name);
    SuffixShape(m);
    SuffixShape(sfx);
    assert m == sfx;
    BaseNameOfClassified(name, b, sfx);
  }

  /** The pairing example: files `a_TV.*`, `a_DRC.*` and `c_TV.*` group into
      two keys, `a` with both halves and `c` with only its TV half. */
  lemma PairingExample(a: string, c: string, tv1: string, drc: string, tv2: string, p1: string, p2: string, p3: string)
    requires a != c
    requires tv1 in TVSuffixes && drc in DRCSuffixes && tv2 in TVSuffixes
    ensures Group([FileRecord(a + tv1, p1, true), FileRecord(a + drc, p2, true), FileRecord(c + tv2, p3, true)])
            == map[a := (p1, p2), c := (p3, "")]
  {
    var rs := [FileRecord(a + tv1, p1, true), FileRecord(a + drc, p2, true), FileRecord(c + tv2, p3, true)];
    KeyOfSuffixed(a, tv1, p1);
    KeyOfSuffixed(a, drc, p2);
    KeyOfSuffixed(c, tv2, p3);
    assert drc !in TVSuffixes;
    TagsOfThree(rs[0], rs[1], rs[2]);
    assert rs == [rs[0], rs[1], rs[2]];
    GroupOfPairingExample(a, c, p1, p2, p3);
  }

  lemma TagsOfThree(r0: FileRecord, r1: FileRecord, r2: FileRecord)
    ensures Tags([r0, r1, r2]) == [Tag(r0), Tag(r1), Tag(r2)]
  {
  }

  lemma GroupOfPairingExample(a: string, c: string, p1: string, p2: string, p3: string)
    requires a != c
    ensures GroupTagged([Tagged(Some((a, TV)), p1), Tagged(Some((a, DRC)), p2), Tagged(Some((c, TV)), p3)])
            == map[a := (p1, p2), c := (p3, "")]
  {
    var ts := [Tagged(Some((a, TV)), p1), Tagged(Some((a, DRC)), p2), Tagged(Some((c, TV)), p3)];
    assert ts[..2][..1] == ts[..1] && ts[..1][..0] == [];
    assert GroupTagged(ts[..1]) == map[a := (p1, "")];
    assert GroupTagged(ts[..2]) == map[a := (p1, p2)];
  }
}
