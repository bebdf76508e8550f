/** The earlier cross-reference document (src/mapper/map.hpp): rows are deduplicated
    through a map from CUI to a map from (source, code) to the packed record, and
    every column of the selected row is packed. Its line splitter and column selection
    are the same as those of src/mapper/defs.hpp and are shared with that model. */
module Mapping {
  import opened Text
  import opened Results
  import opened Rows
  import opened Memory
  import opened Policies
  import opened Xref

  /** `kArenaRegionSize` of this document. */
  const MapArenaSize: int := 8192

  const U16: nat := 0x1_0000

  /** The old `consoFilter`: rejects short, non-English and suppressed rows, and any
      row whose source abbreviation starts with neither SNOMED nor MSH. */
  function OldConsoFilter(row: Row): (reject: bool)
    ensures |row.cols| < ConsoColumnWidth ==> reject
    ensures !reject <==>
              && |row.cols| >= ConsoColumnWidth
              && row.cols[LangCol] == "ENG" && row.cols[SuppressCol] != "O"
              && (StartsWith(row.cols[SourceCol], SnomedSab) || StartsWith(row.cols[SourceCol], MeshSab))
  {
    var cols := row.cols;
    if |cols| < ConsoColumnWidth then true
    else if cols[LangCol] != "ENG" || cols[SuppressCol] == "O" then true
    else
      var sab := cols[SourceCol];
      !(StartsWith(sab, SnomedSab) || StartsWith(sab, MeshSab))
  }

  /** The later filter keeps only rows the old one kept. */
  lemma FilterNarrowed(row: Row, known: Option<set<string>>)
    ensures !ConsoFilter(row, known) ==> !OldConsoFilter(row)
  {
    ConsoFilterKeeps(row, known);
  }

  /** The old filter keeps the veterinary SNOMED extension and a short code; the later
      one rejects both. */
  lemma FilterNarrowedStrictly()
    ensures var vet := SampleRow("SNOMEDCT_VET", "D012711");
            !OldConsoFilter(vet) && ConsoFilter(vet, None)
    ensures var short := SampleRow("MSH", "D1");
            !OldConsoFilter(short) && ConsoFilter(short, None)
  {
    var vet := SampleRow("SNOMEDCT_VET", "D012711");
    assert StartsWith(vet.cols[SourceCol], SnomedSab);
    CodingExamples();
    var short := SampleRow("MSH", "D1");
    assert StartsWith(short.cols[SourceCol], MeshSab);
  }

  /** A packed record: the bytes at `buf`, their count and the column count truncated
      to `uint16_t`. */
  datatype MapRecord = MapRecord(buf: seq<char>, bufLen: nat, colLen: nat)

  /** CUI to (source, code) to record. */
  type Records = map<string, map<(string, string), MapRecord>>

  /** What `allocRow` packs for a row. */
  function Packing(cols: seq<string>): (r: MapRecord)
    ensures r.bufLen == |r.buf| && r.colLen < U16
  {
    JoinLength(cols, NUL);
    MapRecord(Join(cols, NUL), SizeHint(cols), |cols| % U16)
  }

  /** The packed bytes read back, as C strings, to the CUI, the source and the code. */
  predicate ReadsBack(r: MapRecord, u: string, k: (string, string)) {
    r.bufLen == |r.buf| && ViewsAs(r.buf, u, k.0, k.1)
  }

  /** Three C strings laid end to end, each after the previous one's terminator. */
  predicate ViewsAs(buf: string, u: string, src: string, code: string) {
    && |u| + |src| + 2 <= |buf|
    && CStr(buf) == u
    && CStr(buf[|u| + 1..]) == src
    && CStr(buf[|u| + |src| + 2..]) == code
  }

  lemma PackingReadsBack(cols: seq<string>)
    requires |cols| >= 3 && NUL !in cols[0] && NUL !in cols[1] && NUL !in cols[2]
    ensures ReadsBack(Packing(cols), cols[0], (cols[1], cols[2]))
  {
    JoinViews(Packing(cols).buf, cols);
  }

  /** The joined columns read back, as C strings, to the first three. */
  lemma JoinViews(buf: string, cols: seq<string>)
    requires |cols| >= 3 && NUL !in cols[0] && NUL !in cols[1] && NUL !in cols[2]
    requires buf == Join(cols, NUL)
    ensures ViewsAs(buf, cols[0], cols[1], cols[2])
  {
    ReadBackAt(buf, cols, 0, 0);
    ReadBackAt(buf, cols, 1, |cols[0]| + 1);
    ReadBackAt(buf, cols, 2, |cols[0]| + |cols[1]| + 2);
  }

  /** `PackedReadBack` at the offsets of the first three columns. */
  lemma ReadBackAt(buf: string, cols: seq<string>, k: nat, at: nat)
    requires buf == Join(cols, NUL)
    requires k < 3 <= |cols| && NUL !in cols[k]
    requires at == (if k == 0 then 0 else if k == 1 then |cols[0]| + 1 else |cols[0]| + |cols[1]| + 2)
    ensures at < |buf| && CStr(buf[at..]) == cols[k]
  {
    FirstOffsets(cols);
    PackedReadBack(cols, k);
    assert buf[0..] == buf;
  }

  lemma FirstOffsets(cols: seq<string>)
    requires |cols| >= 3
    ensures Offset(cols, 0) == 0
    ensures Offset(cols, 1) == |cols[0]| + 1
    ensures Offset(cols, 2) == |cols[0]| + |cols[1]| + 2
  {
    assert cols[..0] == [];
    SizeHintStep(cols, 0);
    SizeHintStep(cols, 1);
  }

  /** Every stored record reads back to the keys it is stored under. */
  predicate Consistent(recs: Records) {
    forall u, k :: u in recs && k in recs[u] ==> ReadsBack(recs[u][k], u, k)
  }

  /** Storing a record under a CUI, creating the CUI's entry when there is none. */
  function Insert(recs: Records, u: string, k: (string, string), r: MapRecord): (out: Records)
    ensures u in out && k in out[u] && out[u][k] == r
    ensures forall v, l :: v in recs && l in recs[v] && (v, l) != (u, k) ==>
              v in out && l in out[v] && out[v][l] == recs[v][l]
    ensures forall v, l :: v in out && l in out[v] ==> (v, l) == (u, k) || (v in recs && l in recs[v])
  {
    recs[u := (if u in recs then recs[u] else map[])[k := r]]
  }

  /** The policies of one map document type. */
  datatype MapPolicies = MapPolicies(token: char, filter: FilterPolicy, selector: SelectorPolicy)

  /** A line is recorded when it parses, passes the filter and keeps at least three
      columns and a positive size after selection. */
  function MapAdmitted(pol: MapPolicies, line: string): (r: Option<Row>)
    ensures r.Some? ==> |r.value.cols| >= 3 && r.value.size >= 1 && r.value.size == SizeHint(r.value.cols)
  {
    var row := Parsed(line, pol.token);
    if row.status != Successful || Filter(pol.filter, row) then None
    else
      var sel := Select(pol.selector, row);
      if |sel.cols| < 3 || sel.size < 1 then None else Some(sel)
  }

  /** A recorded row's columns were read from a C string, so none holds a NUL. */
  lemma MapAdmittedClean(pol: MapPolicies, line: string)
    requires MapAdmitted(pol, line).Some?
    ensures var cols := MapAdmitted(pol, line).value.cols;
            forall j :: 0 <= j < |cols| ==> NUL !in cols[j]
  {
    var row := Parsed(line, pol.token);
    CStrPrefix(line);
    FieldsNoNul(CStr(line), pol.token);
    CleanPick(row.cols, if pol.selector.ColumnsSelected? then pol.selector.indices else []);
  }

  /** The loop of `buildMapping` from line `i` on. A (CUI, source, code) already
      recorded is skipped; an allocation failure ends the loop with the records so far.
      This is the specification `BuildLines` is proved against; the `RunMap*` lemmas
      below state what it guarantees. */
  function RunMap(pol: MapPolicies, file: SourceFile, i: nat, recs: Records, rsize: int): (out: (Result, Records))
    requires i <= |file.lines|
    decreases |file.lines| - i
  {
    if i == |file.lines| then
      (if file.readError.Some? then Result(LineReaderErr, file.readError.value) else WithStatus(Successful), recs)
    else match MapAdmitted(pol, file.lines[i])
      case None => RunMap(pol, file, i + 1, recs, rsize)
      case Some(row) =>
        var u, k := row.cols[0], (row.cols[1], row.cols[2]);
        if u in recs && k in recs[u] then RunMap(pol, file, i + 1, recs, rsize)
        else if rsize < row.size && i in file.refusals then
          (Result(AllocationErr, AllocFailureMessage(row.cols, row.size)), recs)
        else RunMap(pol, file, i + 1, Insert(recs, u, k, Packing(row.cols)), NewRsize(rsize, row.size, MapArenaSize))
  }

  /** A line that is not recorded, or whose keys are already recorded, changes
      nothing. */
  lemma RunMapSkips(pol: MapPolicies, file: SourceFile, i: nat, recs: Records, rsize: int)
    requires i < |file.lines|
    requires match MapAdmitted(pol, file.lines[i])
             case None => true
             case Some(row) => row.cols[0] in recs && (row.cols[1], row.cols[2]) in recs[row.cols[0]]
    ensures RunMap(pol, file, i, recs, rsize) == RunMap(pol, file, i + 1, recs, rsize)
  {
  }

  /** A refused region ends the pass with the allocation error. */
  lemma RunMapFails(pol: MapPolicies, file: SourceFile, i: nat, recs: Records, rsize: int, row: Row)
    requires i < |file.lines| && MapAdmitted(pol, file.lines[i]) == Some(row)
    requires !(row.cols[0] in recs && (row.cols[1], row.cols[2]) in recs[row.cols[0]])
    requires rsize < row.size && i in file.refusals
    ensures RunMap(pol, file, i, recs, rsize) == (Result(AllocationErr, AllocFailureMessage(row.cols, row.size)), recs)
  {
  }

  /** A new row's record is inserted under its keys. */
  lemma RunMapStores(pol: MapPolicies, file: SourceFile, i: nat, recs: Records, rsize: int, row: Row)
    requires i < |file.lines| && MapAdmitted(pol, file.lines[i]) == Some(row)
    requires !(row.cols[0] in recs && (row.cols[1], row.cols[2]) in recs[row.cols[0]])
    requires !(rsize < row.size && i in file.refusals)
    ensures RunMap(pol, file, i, recs, rsize) ==
              RunMap(pol, file, i + 1, Insert(recs, row.cols[0], (row.cols[1], row.cols[2]), Packing(row.cols)),
                     NewRsize(rsize, row.size, MapArenaSize))
  {
  }

  /** Past the last line: the reader's error, if any, or success. */
  lemma RunMapEnds(pol: MapPolicies, file: SourceFile, recs: Records, rsize: int)
    ensures RunMap(pol, file, |file.lines|, recs, rsize) ==
              (if file.readError.Some? then Result(LineReaderErr, file.readError.value) else WithStatus(Successful), recs)
  {
  }

  /** `buildMapping`. */
  function MapSpec(pol: MapPolicies, file: SourceFile, recs: Records): (out: (Result, Records))
  {
    if !file.present then (WithStatus(FileNotFoundErr), recs)
    else if file.initError.Some? then (Result(FileInitErr, file.initError.value), recs)
    else RunMap(pol, file, 0, recs, 0)
  }

  /** Every record of `recs` is still in `out`, unchanged. */
  predicate Keeps(recs: Records, out: Records) {
    forall u, k :: u in recs && k in recs[u] ==> u in out && k in out[u] && out[u][k] == recs[u][k]
  }

  /** A record once stored is never replaced or removed: the first row for a
      (CUI, source, code) wins. */
  lemma {:induction false} RunMapKeeps(pol: MapPolicies, file: SourceFile, i: nat, recs: Records, rsize: int)
    requires i <= |file.lines|
    ensures Keeps(recs, RunMap(pol, file, i, recs, rsize).1)
    decreases |file.lines| - i
  {
    if i < |file.lines| {
      match MapAdmitted(pol, file.lines[i])
      case None =>
        RunMapSkips(pol, file, i, recs, rsize);
        RunMapKeeps(pol, file, i + 1, recs, rsize);
      case Some(row) =>
        var u, k := row.cols[0], (row.cols[1], row.cols[2]);
        if u in recs && k in recs[u] {
          RunMapSkips(pol, file, i, recs, rsize);
          RunMapKeeps(pol, file, i + 1, recs, rsize);
        } else if !(rsize < row.size && i in file.refusals) {
          var recs' := Insert(recs, u, k, Packing(row.cols));
          var rs := NewRsize(rsize, row.size, MapArenaSize);
          RunMapStores(pol, file, i, recs, rsize, row);
          RunMapKeeps(pol, file, i + 1, recs', rs);
          KeepsThroughInsert(recs, u, k, Packing(row.cols), RunMap(pol, file, i + 1, recs', rs).1);
        } else {
          RunMapFails(pol, file, i, recs, rsize, row);
        }
    }
  }

  lemma KeepsThroughInsert(recs: Records, u: string, k: (string, string), r: MapRecord, out: Records)
    requires !(u in recs && k in recs[u])
    requires Keeps(Insert(recs, u, k, r), out)
    ensures Keeps(recs, out)
  {
  }

  /** The (CUI, source, code) of a row is a key of `out`. */
  predicate Recorded(cols: seq<string>, out: Records)
    requires |cols| >= 3
  {
    cols[0] in out && (cols[1], cols[2]) in out[cols[0]]
  }

  /** Every line from `from` on that is recorded at all has its keys in `out`. */
  predicate Covers(pol: MapPolicies, lines: seq<string>, from: nat, out: Records) {
    forall j :: from <= j < |lines| && MapAdmitted(pol, lines[j]).Some? ==>
      Recorded(MapAdmitted(pol, lines[j]).value.cols, out)
  }

  lemma CoversStep(pol: MapPolicies, lines: seq<string>, i: nat, out: Records)
    requires i < |lines| && Covers(pol, lines, i + 1, out)
    requires MapAdmitted(pol, lines[i]).Some? ==> Recorded(MapAdmitted(pol, lines[i]).value.cols, out)
    ensures Covers(pol, lines, i, out)
  {
  }

  /** After a successful pass every recorded line's (CUI, source, code) is present. */
  lemma {:induction false} RunMapComplete(pol: MapPolicies, file: SourceFile, i: nat, recs: Records, rsize: int)
    requires i <= |file.lines|
    ensures var (res, out) := RunMap(pol, file, i, recs, rsize);
            res.Ok() ==> Covers(pol, file.lines, i, out)
    decreases |file.lines| - i
  {
    if i < |file.lines| {
      var (res, out) := RunMap(pol, file, i, recs, rsize);
      match MapAdmitted(pol, file.lines[i])
      case None =>
        RunMapSkips(pol, file, i, recs, rsize);
        RunMapComplete(pol, file, i + 1, recs, rsize);
        if res.Ok() {
          CoversStep(pol, file.lines, i, out);
        }
      case Some(row) =>
        var u, k := row.cols[0], (row.cols[1], row.cols[2]);
        if u in recs && k in recs[u] {
          RunMapSkips(pol, file, i, recs, rsize);
          RunMapComplete(pol, file, i + 1, recs, rsize);
          RunMapKeeps(pol, file, i + 1, recs, rsize);
          if res.Ok() {
            assert Recorded(row.cols, out);
            CoversStep(pol, file.lines, i, out);
          }
        } else if !(rsize < row.size && i in file.refusals) {
          var recs' := Insert(recs, u, k, Packing(row.cols));
          var rs := NewRsize(rsize, row.size, MapArenaSize);
          RunMapStores(pol, file, i, recs, rsize, row);
          RunMapComplete(pol, file, i + 1, recs', rs);
          RunMapKeeps(pol, file, i + 1, recs', rs);
          if res.Ok() {
            assert Recorded(row.cols, out);
            CoversStep(pol, file.lines, i, out);
          }
        } else {
          RunMapFails(pol, file, i, recs, rsize, row);
        }
    }
  }

  /** Storing the packing of a NUL-free row keeps every record reading back. */
  lemma InsertConsistent(recs: Records, cols: seq<string>)
    requires Consistent(recs) && |cols| >= 3
    requires forall j :: 0 <= j < |cols| ==> NUL !in cols[j]
    ensures Consistent(Insert(recs, cols[0], (cols[1], cols[2]), Packing(cols)))
  {
    PackingReadsBack(cols);
  }

  /** Every record the pass stores reads back to its keys. */
  lemma {:induction false} RunMapConsistent(pol: MapPolicies, file: SourceFile, i: nat, recs: Records, rsize: int)
    requires i <= |file.lines| && Consistent(recs)
    ensures Consistent(RunMap(pol, file, i, recs, rsize).1)
    decreases |file.lines| - i
  {
    if i < |file.lines| {
      match MapAdmitted(pol, file.lines[i])
      case None =>
        RunMapSkips(pol, file, i, recs, rsize);
        RunMapConsistent(pol, file, i + 1, recs, rsize);
      case Some(row) =>
        var u, k := row.cols[0], (row.cols[1], row.cols[2]);
        if u in recs && k in recs[u] {
          RunMapSkips(pol, file, i, recs, rsize);
          RunMapConsistent(pol, file, i + 1, recs, rsize);
        } else if !(rsize < row.size && i in file.refusals) {
          MapAdmittedClean(pol, file.lines[i]);
          InsertConsistent(recs, row.cols);
          RunMapStores(pol, file, i, recs, rsize, row);
          RunMapConsistent(pol, file, i + 1, Insert(recs, u, k, Packing(row.cols)), NewRsize(rsize, row.size, MapArenaSize));
        } else {
          RunMapFails(pol, file, i, recs, rsize, row);
        }
    }
  }

  /** `allocRow`'s packing loop: each column and its terminator at a running offset. */
  method PackRow(cols: seq<string>, buf: array<char>) returns (offset: nat)
    requires buf.Length == SizeHint(cols)
    modifies buf
    ensures offset == SizeHint(cols) && buf[..] == Join(cols, NUL)
  {
    offset := 0;
    var index := 0;
    while index < |cols|
      invariant index <= |cols|
      invariant offset == SizeHint(cols[..index]) <= buf.Length
      invariant buf[..offset] == Join(cols[..index], NUL)
    {
      var col := cols[index];
      SizeHintStep(cols, index);
      SizeHintPrefix(cols, index + 1);
      Copy(buf, offset, col);
      buf[offset + |col|] := NUL;
      PackStep(cols, index, buf[..], offset);
      offset := offset + |col| + 1;
      index := index + 1;
    }
    assert cols[..index] == cols;
  }

  class MapDocument {
    const pol: MapPolicies
    var result: Result
    var records: Records
    var allocator: Arena?

    /** The constructor runs `buildMapping` on the file. */
    constructor (pol: MapPolicies, file: SourceFile)
      ensures this.pol == pol
      ensures (result, records) == MapSpec(pol, file, map[])
    {
      this.pol := pol;
      result := Default();
      records := map[];
      allocator := null;
      new;
      BuildMapping(file);
    }

    /** `buildMapping`: one pass over the lines; the arena is created only once the
        reader is open. */
    method BuildMapping(file: SourceFile)
      modifies this
      ensures (result, records) == MapSpec(pol, file, old(records))
      ensures file.present && file.initError.None? ==> allocator != null && fresh(allocator)
    {
      if !file.present {
        result := WithStatus(FileNotFoundErr);
        return;
      }
      if file.initError.Some? {
        result := Result(FileInitErr, file.initError.value);
        return;
      }
      allocator := new Arena(MapArenaSize);
      var res;
      res, records := BuildLines(file, records);
      result := res;
    }

    /** The line loop of `buildMapping`, over a fresh arena. A failure keeps the
        records stored before it. */
    method BuildLines(file: SourceFile, recs: Records) returns (res: Result, out: Records)
      requires allocator != null && allocator.Valid()
      requires allocator.mcsize == MapArenaSize && allocator.rsize == 0
      modifies allocator
      ensures (res, out) == RunMap(pol, file, 0, recs, 0)
      ensures allocator.Valid()
    {
      ghost var spec := RunMap(pol, file, 0, recs, 0);
      out := recs;
      var i := 0;
      while i < |file.lines|
        invariant i <= |file.lines|
        invariant allocator.Valid() && allocator.mcsize == MapArenaSize
        invariant spec == RunMap(pol, file, i, out, allocator.rsize)
      {
        var next, err := BuildStep(allocator, file, i, out);
        if err.Some? {
          return err.value, out;
        }
        out := next;
        i := i + 1;
      }
      RunMapEnds(pol, file, out, allocator.rsize);
      if file.readError.Some? {
        return Result(LineReaderErr, file.readError.value), out;
      }
      return WithStatus(Successful), out;
    }

    /** One iteration of `buildMapping` on line `i`, over the document's arena: the
        per-line checks, the duplicate check, `allocRow` and the insertion. */
    method BuildStep(arena: Arena, file: SourceFile, i: nat, recs: Records) returns (next: Records, err: Option<Result>)
      requires i < |file.lines|
      requires arena.Valid() && arena.mcsize == MapArenaSize
      modifies arena
      ensures arena.Valid()
      ensures err.Some? ==> RunMap(pol, file, i, recs, old(arena.rsize)) == (err.value, recs)
      ensures err.None? ==>
                RunMap(pol, file, i, recs, old(arena.rsize)) == RunMap(pol, file, i + 1, next, arena.rsize)
    {
      var admitted := AdmitRow(file.lines[i]);
      if admitted.None? {
        RunMapSkips(pol, file, i, recs, arena.rsize);
        return recs, None;
      }
      var cols := admitted.value.cols;
      var u, k := cols[0], (cols[1], cols[2]);
      var hasMapping := u in recs;
      if hasMapping && k in recs[u] {
        RunMapSkips(pol, file, i, recs, arena.rsize);
        return recs, None;
      }
      MapAdmittedClean(pol, file.lines[i]);
      var grant := if i in file.refusals then Null else arena.NextFree();
      var rec, failure := AllocRow(arena, cols, admitted.value.size, grant);
      if rec.None? {
        RunMapFails(pol, file, i, recs, old(arena.rsize), admitted.value);
        return recs, Some(failure);
      }
      RunMapStores(pol, file, i, recs, old(arena.rsize), admitted.value);
      PackingReadsBack(cols);
      // the CUI entry is keyed by the record's own buffer, read as a C string
      var owner := CStr(rec.value.buf);
      assert owner == u && rec.value == Packing(cols);
      next, err := Insert(recs, owner, k, rec.value), None;
    }

    /** The per-line checks of `buildMapping`. */
    method AdmitRow(line: string) returns (admitted: Option<Row>)
      ensures admitted == MapAdmitted(pol, line)
    {
      var row := ParseLine(line, pol.token);
      if row.status != Successful || Filter(pol.filter, row) {
        return None;
      }
      var selected := row;
      if pol.selector.ColumnsSelected? {
        selected := ColumnSelect(row, pol.selector.indices);
      }
      if |selected.cols| < 3 || selected.size < 1 {
        return None;
      }
      return Some(selected);
    }

    /** `allocRow`: reserves `size` bytes and packs every column into them, or reports
        the row it could not place. */
    method AllocRow(arena: Arena, cols: seq<string>, size: nat, grant: nat) returns (rec: Option<MapRecord>, err: Result)
      requires arena.Valid() && size == SizeHint(cols)
      requires arena.rsize < size ==> arena.FreshFor(grant, RegionSize(size, arena.mcsize))
      modifies arena
      ensures arena.Valid()
      ensures rec.None? <==> old(arena.rsize) < size && grant == Null
      ensures rec.None? ==> err == Result(AllocationErr, AllocFailureMessage(cols, size))
      ensures rec.Some? ==> rec.value == Packing(cols)
      ensures rec.Some? ==> arena.rsize == NewRsize(old(arena.rsize), size, arena.mcsize)
    {
      var ok, ptr := arena.Allocate(size, grant);
      if !ok {
        var msg := FormatAllocFailure(cols, size);
        return None, Result(AllocationErr, msg);
      }
      var buf := new char[size];
      var bufLen := PackRow(cols, buf);
      rec := Some(MapRecord(buf[..], bufLen, |cols| % U16));
      err := Default();
    }
  }
}
