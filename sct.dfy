/** The SNOMED/MeSH cross-reference document (src/mapper/sct.hpp) and the policy slots
    it is instantiated with (src/mapper/defs.hpp). The `Sct*` names of sct.hpp are the
    `Map*` types of defs.hpp: `SctAll` is `MapAll`, `ShouldSct` is `ShouldMap`, the
    store `RecordSct` is the multimap `RecordMap`.

    The file is an abstract sequence of lines together with the outcomes of the
    operations that touch the file system or the system allocator: whether the file
    exists, whether the line reader fails to open or to read, and at which lines the
    system would refuse a new arena region. The multimap is the sequence of its keys in
    insertion order (its key-ordered view is `Policies.InOrder`). The uniqueness test
    is the exact lookup `Policies.ConsoCheck`; the multimap's own lookup, which can
    miss a stored key, is `Policies.ConsoCheckAsWritten`. */
module Xref {
  import opened Text
  import opened Results
  import opened Rows
  import opened Memory
  import opened Policies

  // ---------------------------------------------------------------- policy slots

  /** `NoRowFilter` or `RowFilter<Predicate>`. */
  datatype FilterPolicy = NoRowFilter | RowFilter(reject: Row -> bool)

  /** `AllSelected` or `ColumnSelect<Args...>`. */
  datatype SelectorPolicy = AllSelected | ColumnsSelected(indices: seq<nat>)

  /** `MapAll` or `MapSelector<consoCheck>`. */
  datatype MapPolicy = MapAll | UniqueSelector

  /** `NoBuilder` or `RecordBuilder<consoRecord>`. */
  datatype BuilderPolicy = NoBuilder | ConsoBuilder

  /** The template arguments of one document type; `token` is the delimiter of
      `ColumnDelimiter<Token>`. */
  datatype DocPolicies = DocPolicies(token: char, filter: FilterPolicy, selector: SelectorPolicy,
                               mapping: MapPolicy, builder: BuilderPolicy)

  /** The policy set xref generation uses: MRCONSO rows split on '|', filtered by
      `consoFilter` (with its MeSH branch corrected, see `ConsoFilterIntended`),
      reduced to CUI, source and code, deduplicated and packed. */
  function ConsoPolicies(known: Option<set<string>>): (pol: DocPolicies)
    ensures WellFormed(pol)
  {
    DocPolicies('|', RowFilter(row => ConsoFilterIntended(row, known)), ColumnsSelected(ConsoCols),
             UniqueSelector, ConsoBuilder)
  }

  /** `consoRecord` leaves the key fields null for a row of fewer than three columns,
      and building the key from them is undefined; only `consoCheck` rules such rows
      out, so the record builder must be paired with it. */
  predicate WellFormed(pol: DocPolicies) {
    pol.builder.ConsoBuilder? ==> pol.mapping.UniqueSelector?
  }

  /** `FilterPolicy::Filter`: true rejects the row; `NoRowFilter` rejects nothing. */
  function Filter(f: FilterPolicy, row: Row): (reject: bool)
    ensures f.NoRowFilter? ==> !reject
    ensures f.RowFilter? ==> reject == f.reject(row)
  {
    match f
    case NoRowFilter => false
    case RowFilter(p) => p(row)
  }

  /** `SelectorPolicy::Select`: `AllSelected` leaves the row as it is; a column
      selection keeps the chosen columns in their original order and resizes. */
  function Select(s: SelectorPolicy, row: Row): (out: Row)
    ensures s.AllSelected? ==> out == row
    ensures s.ColumnsSelected? ==>
              out.cols == Pick(row.cols, s.indices) && out.size == SizeHint(out.cols)
    ensures out.status == row.status
  {
    match s
    case AllSelected => row
    case ColumnsSelected(ix) => var cols := Pick(row.cols, ix); Row(cols, SizeHint(cols), row.status)
  }

  /** `MapPolicy::ShouldMap`: `MapAll` maps everything; the unique selector applies the
      exact form of `consoCheck`. */
  function ShouldMap(m: MapPolicy, row: Row, store: seq<Key>): (map_it: bool)
    ensures m.MapAll? ==> map_it
    ensures m.UniqueSelector? ==> (map_it <==> ConsoCheck(row, store))
  {
    match m
    case MapAll => true
    case UniqueSelector => ConsoCheck(row, store)
  }

  /** `BuilderPolicy::Build` followed by reading the key back from the packed buffer:
      `NoBuilder` always fails, `consoRecord` succeeds on exactly three columns and the
      key is those three columns. */
  function BuildKey(b: BuilderPolicy, cols: seq<string>): (k: Option<Key>)
    requires b.ConsoBuilder? ==> |cols| >= 3
    ensures b.NoBuilder? ==> k.None?
    ensures b.ConsoBuilder? ==> (k.Some? <==> |cols| == 3)
    ensures k.Some? ==> k.value == Key(cols[0], cols[1], cols[2])
  {
    match b
    case NoBuilder => None
    case ConsoBuilder => if |cols| == 3 then Some(Key(cols[0], cols[1], cols[2])) else None
  }

  // ---------------------------------------------------------------- the line loop

  /** Everything outside the process that the document reads. */
  datatype SourceFile = SourceFile(
    present: bool,             // `std::filesystem::exists`
    initError: Option<string>, // the line reader's constructor throws
    lines: seq<string>,        // the lines `next_line` hands out
    readError: Option<string>, // `next_line` throws after the last of them
    refusals: set<nat>)        // lines at which the system refuses a new region

  /** What `allocRow` produces: a stored key or the error that aborts the parse. */
  datatype Outcome = Stored(key: Key) | Failed(err: Result)

  const BuildFailure: string := "failed to build record"

  /** The row a line contributes, if any: it must parse, pass the filter, survive
      selection and be accepted by the map policy. */
  function Admitted(pol: DocPolicies, line: string, store: seq<Key>): (r: Option<Row>)
    ensures r.Some? ==> r.value.status == Successful && r.value.size == SizeHint(r.value.cols)
    ensures r.Some? && pol.mapping.UniqueSelector? ==>
              |r.value.cols| >= 3 && ConsoCheck(r.value, store)
  {
    var row := Parsed(line, pol.token);
    if row.status != Successful || Filter(pol.filter, row) then None
    else
      var sel := Select(pol.selector, row);
      if sel.status != Successful || !ShouldMap(pol.mapping, sel, store) then None
      else Some(sel)
  }

  /** An admitted row's columns were read from a C string, so none holds a NUL. */
  lemma AdmittedClean(pol: DocPolicies, line: string, store: seq<Key>)
    requires Admitted(pol, line, store).Some?
    ensures var cols := Admitted(pol, line, store).value.cols;
            forall j :: 0 <= j < |cols| ==> NUL !in cols[j]
  {
    var row := Parsed(line, pol.token);
    CStrPrefix(line);
    FieldsNoNul(CStr(line), pol.token);
    CleanPick(row.cols, if pol.selector.ColumnsSelected? then pol.selector.indices else []);
  }

  lemma CleanPick(cols: seq<string>, sel: seq<nat>)
    requires forall k :: 0 <= k < |cols| ==> NUL !in cols[k]
    ensures forall j :: 0 <= j < |Pick(cols, sel)| ==> NUL !in Pick(cols, sel)[j]
  {
    forall j | 0 <= j < |Pick(cols, sel)|
      ensures NUL !in Pick(cols, sel)[j]
    {
      var c := Pick(cols, sel)[j];
      PickSubset(cols, sel);
      assert c in cols;
      var k :| 0 <= k < |cols| && cols[k] == c;
    }
  }

  /** The columns of a row as the allocation-failure message lists them. */
  function Cells(cols: seq<string>): string {
    if cols == [] then []
    else if |cols| == 1 then cols[0] + " |"
    else cols[0] + " | " + Cells(cols[1..])
  }

  const AllocHeader: string := "Unable to allocate row of Size<"

  /** The message of the `kAllocationErr` result. */
  function AllocFailureMessage(cols: seq<string>, size: nat): (m: string)
    ensures StartsWith(m, AllocHeader)
  {
    AllocHeader + NatToString(size) + "> with data:\n\t| " + Cells(cols)
  }

  /** Every column is followed by " | " except the last, followed by " |". */
  lemma {:induction false} CellsLength(cols: seq<string>)
    ensures |Cells(cols)| == if cols == [] then 0 else SizeHint(cols) + 2 * |cols| - 1
  {
    if |cols| > 1 {
      CellsLength(cols[1..]);
      SizeHintCons(cols);
    } else if |cols| == 1 {
      SizeHintCons(cols);
    }
  }

  /** The failure message ends with the last column and " |"; with no columns it ends
      with the opening "| ". */
  lemma {:induction false} CellsEnd(cols: seq<string>)
    ensures cols != [] ==> EndsWith(Cells(cols), cols[|cols| - 1] + " |")
    ensures cols == [] ==> EndsWith(AllocFailureMessage(cols, 0), "\t| ")
  {
    if |cols| > 1 {
      CellsEnd(cols[1..]);
      assert cols[1..][|cols[1..]| - 1] == cols[|cols| - 1];
    }
  }

  /** Bytes left in the current region after allocating `size`. */
  function NewRsize(rsize: int, size: nat, mcsize: int): int {
    if rsize >= size then rsize - size else RegionSize(size, mcsize) - size
  }

  /** `allocRow` on the selected columns: the allocation fails only when a new region is
      needed and the system refuses it; then the builder runs. */
  function AllocOutcome(b: BuilderPolicy, cols: seq<string>, refused: bool): (out: Outcome)
    requires b.ConsoBuilder? ==> |cols| >= 3
    ensures refused ==> out == Failed(Result(AllocationErr, AllocFailureMessage(cols, SizeHint(cols))))
    ensures !refused && b.NoBuilder? ==> out == Failed(Result(PolicyErr, BuildFailure))
    ensures out.Stored? <==> !refused && b.ConsoBuilder? && |cols| == 3
  {
    if refused then Failed(Result(AllocationErr, AllocFailureMessage(cols, SizeHint(cols))))
    else match BuildKey(b, cols)
      case None => Failed(Result(PolicyErr, BuildFailure))
      case Some(k) => Stored(k)
  }

  /** The line loop of `parseFile` from line `i` on, with the keys stored so far and the
      bytes left in the arena's current region. A failure returns at once; the keys
      stored before it stay. This is the specification `ParseLines` is proved against;
      the `Run*` lemmas below state what it guarantees. */
  function Run(pol: DocPolicies, file: SourceFile, i: nat, store: seq<Key>, rsize: int): (out: (Result, seq<Key>))
    requires WellFormed(pol) && i <= |file.lines|
    decreases |file.lines| - i
  {
    if i == |file.lines| then
      (if file.readError.Some? then Result(LineReaderErr, file.readError.value) else WithStatus(Successful), store)
    else match Admitted(pol, file.lines[i], store)
      case None => Run(pol, file, i + 1, store, rsize)
      case Some(row) =>
        var refused := rsize < row.size && i in file.refusals;
        match AllocOutcome(pol.builder, row.cols, refused)
        case Failed(err) => (err, store)
        case Stored(k) => Run(pol, file, i + 1, store + [k], NewRsize(rsize, row.size, DefaultArenaSize))
  }

  /** One stored line: the loop continues with the key appended and the region
      shrunk by the row. */
  lemma RunStores(pol: DocPolicies, file: SourceFile, i: nat, store: seq<Key>, rsize: int, row: Row, k: Key)
    requires WellFormed(pol) && i < |file.lines|
    requires Admitted(pol, file.lines[i], store) == Some(row)
    requires AllocOutcome(pol.builder, row.cols, rsize < row.size && i in file.refusals) == Stored(k)
    ensures Run(pol, file, i, store, rsize) == Run(pol, file, i + 1, store + [k], NewRsize(rsize, row.size, DefaultArenaSize))
  {
  }

  /** Past the last line: the reader's error, if any, or success. */
  lemma RunEnds(pol: DocPolicies, file: SourceFile, store: seq<Key>, rsize: int)
    requires WellFormed(pol)
    ensures Run(pol, file, |file.lines|, store, rsize) ==
              (if file.readError.Some? then Result(LineReaderErr, file.readError.value) else WithStatus(Successful), store)
  {
  }

  /** A line that is not admitted leaves the loop's state alone. */
  lemma RunSkips(pol: DocPolicies, file: SourceFile, i: nat, store: seq<Key>, rsize: int)
    requires WellFormed(pol) && i < |file.lines|
    requires Admitted(pol, file.lines[i], store).None?
    ensures Run(pol, file, i, store, rsize) == Run(pol, file, i + 1, store, rsize)
  {
  }

  /** One failed line: the loop stops with that error and the keys stored so far. */
  lemma RunFails(pol: DocPolicies, file: SourceFile, i: nat, store: seq<Key>, rsize: int, row: Row, err: Result)
    requires WellFormed(pol) && i < |file.lines|
    requires Admitted(pol, file.lines[i], store) == Some(row)
    requires AllocOutcome(pol.builder, row.cols, rsize < row.size && i in file.refusals) == Failed(err)
    ensures Run(pol, file, i, store, rsize) == (err, store)
  {
  }

  /** `parseFile`: a missing file and a reader that cannot open it fail before any line;
      a fresh arena with nothing remaining backs the records. */
  function ParseSpec(pol: DocPolicies, file: SourceFile, store: seq<Key>): (out: (Result, seq<Key>))
    requires WellFormed(pol)
  {
    if !file.present then (WithStatus(FileNotFoundErr), store)
    else if file.initError.Some? then (Result(FileInitErr, file.initError.value), store)
    else Run(pol, file, 0, store, 0)
  }

  /** `buildSctping`: a failed parse becomes the document's result with whatever was
      stored; a successful one is followed by the consistency pass. */
  function Load(pol: DocPolicies, file: SourceFile, store: seq<Key>): (out: (Result, seq<Key>))
    requires WellFormed(pol)
  {
    var (res, st) := ParseSpec(pol, file, store);
    if res.Ok() then (res, Prune(st)) else (res, st)
  }

  // ---------------------------------------------------------------- facts about the loop

  /** The loop only ever appends to the store. */
  lemma {:induction false} RunExtends(pol: DocPolicies, file: SourceFile, i: nat, store: seq<Key>, rsize: int)
    requires WellFormed(pol) && i <= |file.lines|
    ensures var st := Run(pol, file, i, store, rsize).1; |store| <= |st| && st[..|store|] == store
    decreases |file.lines| - i
  {
    if i < |file.lines| {
      match Admitted(pol, file.lines[i], store)
      case None =>
        RunSkips(pol, file, i, store, rsize);
        RunExtends(pol, file, i + 1, store, rsize);
      case Some(row) =>
        var refused := rsize < row.size && i in file.refusals;
        match AllocOutcome(pol.builder, row.cols, refused)
        case Failed(err) =>
          RunFails(pol, file, i, store, rsize, row, err);
        case Stored(k) =>
          var rs := NewRsize(rsize, row.size, DefaultArenaSize);
          RunStores(pol, file, i, store, rsize, row, k);
          RunExtends(pol, file, i + 1, store + [k], rs);
          PrefixOfExtension(store, k, Run(pol, file, i + 1, store + [k], rs).1);
    }
  }

  lemma PrefixOfExtension(store: seq<Key>, k: Key, st: seq<Key>)
    requires |store| + 1 <= |st| && st[..|store| + 1] == store + [k]
    ensures |store| <= |st| && st[..|store|] == store
  {
    assert st[..|store|] == st[..|store| + 1][..|store|];
  }

  /** With `NoBuilder` nothing is ever stored: the first admitted row fails to build. */
  lemma {:induction false} NoBuilderStoresNothing(pol: DocPolicies, file: SourceFile, i: nat, store: seq<Key>, rsize: int)
    requires WellFormed(pol) && i <= |file.lines| && pol.builder.NoBuilder?
    ensures Run(pol, file, i, store, rsize).1 == store
    ensures Run(pol, file, i, store, rsize).0.Ok() ==>
              forall j :: i <= j < |file.lines| ==> Admitted(pol, file.lines[j], store).None?
    decreases |file.lines| - i
  {
    if i < |file.lines| {
      match Admitted(pol, file.lines[i], store)
      case None =>
        RunSkips(pol, file, i, store, rsize);
        NoBuilderStoresNothing(pol, file, i + 1, store, rsize);
        if Run(pol, file, i, store, rsize).0.Ok() {
          forall j | i <= j < |file.lines|
            ensures Admitted(pol, file.lines[j], store).None?
          {
            if j > i {
              assert i + 1 <= j < |file.lines|;
            }
          }
        }
      case Some(row) =>
        var out := AllocOutcome(pol.builder, row.cols, rsize < row.size && i in file.refusals);
        assert out.Failed? && !out.err.Ok();
        RunFails(pol, file, i, store, rsize, row, out.err);
    }
  }

  predicate NoDup(s: seq<Key>) {
    forall i, j :: 0 <= i < j < |s| ==> s[i] != s[j]
  }

  /** Under `consoCheck` the store never holds the same (uid, source, target) twice. */
  lemma {:induction false} RunUnique(pol: DocPolicies, file: SourceFile, i: nat, store: seq<Key>, rsize: int)
    requires WellFormed(pol) && i <= |file.lines| && pol.mapping.UniqueSelector?
    requires NoDup(store)
    ensures NoDup(Run(pol, file, i, store, rsize).1)
    decreases |file.lines| - i
  {
    if i < |file.lines| {
      match Admitted(pol, file.lines[i], store)
      case None => RunUnique(pol, file, i + 1, store, rsize);
      case Some(row) =>
        var refused := rsize < row.size && i in file.refusals;
        match AllocOutcome(pol.builder, row.cols, refused)
        case Failed(err) =>
        case Stored(k) =>
          ConsoCheckFresh(row, store);
          RunUnique(pol, file, i + 1, store + [k], NewRsize(rsize, row.size, DefaultArenaSize));
    }
  }

  /** The line loop ends in success or in one of the three errors it returns. */
  lemma {:induction false} RunStatus(pol: DocPolicies, file: SourceFile, i: nat, store: seq<Key>, rsize: int)
    requires WellFormed(pol) && i <= |file.lines|
    ensures Run(pol, file, i, store, rsize).0.status in {Successful, LineReaderErr, AllocationErr, PolicyErr}
    ensures Run(pol, file, i, store, rsize).0.Ok() <==>
              file.readError.None? && Run(pol, file, i, store, rsize).0 == WithStatus(Successful)
    decreases |file.lines| - i
  {
    if i < |file.lines| {
      match Admitted(pol, file.lines[i], store)
      case None => RunStatus(pol, file, i + 1, store, rsize);
      case Some(row) =>
        var refused := rsize < row.size && i in file.refusals;
        match AllocOutcome(pol.builder, row.cols, refused)
        case Failed(err) =>
        case Stored(k) =>
          RunStatus(pol, file, i + 1, store + [k], NewRsize(rsize, row.size, DefaultArenaSize));
    }
  }

  // ---------------------------------------------------------------- consistency pass

  /** `equal_range` on a uid: the entries of that uid, in store order. */
  function Group(s: seq<Key>, u: string): (g: seq<Key>)
    ensures forall e :: e in g <==> e in s && e.uid == u
    ensures |g| <= |s|
  {
    if s == [] then [] else (if s[0].uid == u then [s[0]] else []) + Group(s[1..], u)
  }

  /** `equal_range` needs the multimap partitioned for the bare uid. When no stored
      uid is a proper prefix of another, key order keeps each uid's entries in one
      run, so `Group` is the range it returns. */
  lemma GroupsContiguous(s: seq<Key>, i: nat, j: nat, k: nat)
    requires forall a, b :: a in s && b in s ==> !ProperPrefix(a.uid, b.uid)
    requires i < j < k < |InOrder(s)| && InOrder(s)[i].uid == InOrder(s)[k].uid
    ensures InOrder(s)[j].uid == InOrder(s)[i].uid
  {
    var o := InOrder(s);
    InOrderSorted(s);
    InOrderMembers(s, o[i]);
    InOrderMembers(s, o[j]);
    InOrderMembers(s, o[k]);
    KeyOrdersAgree(o[j], o[i]);
    KeyOrdersAgree(o[k], o[j]);
    LexTotal(o[i].uid, o[j].uid);
  }

  /** Without that hypothesis the multimap is not partitioned for a bare uid: with
      "C1" and "C12" stored, the C12 entry comes first in key order, yet the C1
      entries after it precede "C12" under the uid-only comparison. `equal_range`
      on "C12" then need not return the C12 entry, while `Group` does. */
  lemma UidRangeUnpartitioned()
    ensures var s := [Key("C1", "MSH", "D01"), Key("C1", "SNOMEDCT_US", "100"), Key("C12", "MSH", "D02")];
            var o := InOrder(s);
            && |o| == 3 && o[0].uid == "C12"
            && !KeyBeforeUid(o[0], "C12") && KeyBeforeUid(o[1], "C12") && KeyBeforeUid(o[2], "C12")
            && Group(s, "C12") == [s[2]]
  {
    var a, b, c := Key("C1", "MSH", "D01"), Key("C1", "SNOMEDCT_US", "100"), Key("C12", "MSH", "D02");
    var s := [a, b, c];
    SampleKeyOrder(a, b, c);
    SampleInOrder(a, b, c);
    SampleUids(a, b, c);
    SampleGroup(a, b, c);
  }

  lemma SampleKeyOrder(a: Key, b: Key, c: Key)
    requires a == Key("C1", "MSH", "D01") && b == Key("C1", "SNOMEDCT_US", "100") && c == Key("C12", "MSH", "D02")
    ensures KeyLess(c, a) && !KeyLess(b, a)
  {
    assert a.uid + a.src == "C1" + "MSH";
    assert b.uid + b.src == "C1" + "SNOMEDCT_US";
    assert c.uid + c.src == "C1" + "2MSH";
    assert LexLess("2MSH", "MSH");
    LexSharedPrefix("C1", "2MSH", "MSH");
    assert !LexLess("SNOMEDCT_US", "MSH");
    LexSharedPrefix("C1", "SNOMEDCT_US", "MSH");
  }

  lemma SampleInOrder(a: Key, b: Key, c: Key)
    requires KeyLess(c, a) && !KeyLess(b, a)
    ensures InOrder([a, b, c]) == [c, a, b]
  {
    SampleInOrderTwo(a, b);
    InOrderSnoc([a, b], c);
    assert [a, b] + [c] == [a, b, c];
    EmplaceFirst([a, b], c);
    assert [c] + [a, b] == [c, a, b];
  }

  lemma SampleInOrderTwo(a: Key, b: Key)
    requires !KeyLess(b, a)
    ensures InOrder([a, b]) == [a, b]
  {
    SampleInOrderOne(a);
    InOrderSnoc([a], b);
    assert [a] + [b] == [a, b];
    EmplaceAfterLast(a, b);
  }

  lemma SampleInOrderOne(a: Key)
    ensures InOrder([a]) == [a]
  {
    InOrderSnoc([], a);
    assert [] + [a] == [a];
  }

  lemma SampleGroup(a: Key, b: Key, c: Key)
    requires a.uid == "C1" && b.uid == "C1" && c.uid == "C12"
    ensures Group([a, b, c], "C12") == [c]
  {
    assert [a, b, c][1..] == [b, c] && [b, c][1..] == [c] && [c][1..] == [];
  }

  lemma SampleUids(a: Key, b: Key, c: Key)
    requires a.uid == "C1" && b.uid == "C1" && c.uid == "C12"
    ensures !KeyBeforeUid(c, "C12") && KeyBeforeUid(a, "C12") && KeyBeforeUid(b, "C12")
  {
    LexIrreflexive("C12");
    assert LexLess("C1", "C12") by {
      assert "C1"[1..] == "1" && "C12"[1..] == "12";
      assert "1"[1..] == [] && "12"[1..] == "2";
    }
  }

  /** The source of the group's first record in key order: its least source. */
  function MinSrc(g: seq<Key>): (m: string)
    requires g != []
    ensures exists j :: 0 <= j < |g| && g[j].src == m
  {
    if |g| == 1 then g[0].src
    else var rest := MinSrc(g[1..]);
         if LexLess(g[0].src, rest) then g[0].src else rest
  }

  lemma {:induction false} MinSrcLeast(g: seq<Key>)
    requires g != []
    ensures forall j :: 0 <= j < |g| ==> !LexLess(g[j].src, MinSrc(g))
  {
    if |g| == 1 {
      LexIrreflexive(g[0].src);
    } else {
      var rest := MinSrc(g[1..]);
      MinSrcLeast(g[1..]);
      forall j | 0 <= j < |g|
        ensures !LexLess(g[j].src, MinSrc(g))
      {
        if j == 0 {
          LexIrreflexive(g[0].src);
        } else {
          assert g[j].src == g[1..][j - 1].src;
          if LexLess(g[0].src, rest) && LexLess(g[j].src, g[0].src) {
            LexTransitive(g[j].src, g[0].src, rest);
          }
        }
      }
    }
  }

  /** The abbreviation a group must also contain: SNOMED for a MeSH first record, MeSH
      otherwise. */
  function Sibling(src: string): (p: string)
    ensures StartsWith(src, MeshSab) ==> p == SnomedSab
    ensures !StartsWith(src, MeshSab) ==> p == MeshSab
  {
    if StartsWith(src, MeshSab) then SnomedSab else MeshSab
  }

  predicate HasPrefixed(g: seq<Key>, p: string) {
    exists j :: 0 <= j < |g| && StartsWith(g[j].src, p)
  }

  /** A uid whose group lacks a source prefixed by the sibling of its first record. */
  predicate Doomed(s: seq<Key>, u: string) {
    var g := Group(s, u);
    g != [] && !HasPrefixed(g, Sibling(MinSrc(g)))
  }

  /** The entries of `t` whose uid is not doomed in `whole`. */
  function Survivors(t: seq<Key>, whole: seq<Key>): (r: seq<Key>)
    ensures forall e :: e in r <==> e in t && !Doomed(whole, e.uid)
  {
    if t == [] then [] else (if Doomed(whole, t[0].uid) then [] else [t[0]]) + Survivors(t[1..], whole)
  }

  /** What the consistency pass leaves of the store: the specification
      `ConsistencyPass` is proved against, with its properties in the `Prune*` lemmas. */
  function Prune(s: seq<Key>): seq<Key> {
    Survivors(s, s)
  }

  /** The entries of `s` whose uid is not in `gone`: erasing whole uid groups. */
  function Drop(s: seq<Key>, gone: set<string>): (r: seq<Key>)
    ensures |r| <= |s|
  {
    if s == [] then [] else (if s[0].uid in gone then [] else [s[0]]) + Drop(s[1..], gone)
  }

  lemma {:induction false} SurvivorsGroup(t: seq<Key>, whole: seq<Key>, u: string)
    ensures Group(Survivors(t, whole), u) == if Doomed(whole, u) then [] else Group(t, u)
  {
    if t != [] {
      SurvivorsGroup(t[1..], whole, u);
      var head := if Doomed(whole, t[0].uid) then [] else [t[0]];
      GroupAppend(head, Survivors(t[1..], whole), u);
    }
  }

  lemma {:induction false} GroupAppend(a: seq<Key>, b: seq<Key>, u: string)
    ensures Group(a + b, u) == Group(a, u) + Group(b, u)
  {
    if a != [] {
      GroupAppend(a[1..], b, u);
      assert (a + b)[1..] == a[1..] + b;
    } else {
      assert a + b == b;
    }
  }

  /** The pass erases whole groups and leaves every other group exactly as it was. */
  lemma PruneGroups(s: seq<Key>, u: string)
    ensures Group(Prune(s), u) == if Doomed(s, u) then [] else Group(s, u)
  {
    SurvivorsGroup(s, s, u);
  }

  lemma {:induction false} SurvivorsAll(t: seq<Key>, whole: seq<Key>)
    requires forall e :: e in t ==> !Doomed(whole, e.uid)
    ensures Survivors(t, whole) == t
  {
    if t != [] {
      assert t[0] in t;
      SurvivorsAll(t[1..], whole);
    }
  }

  /** A second pass changes nothing. */
  lemma PruneIdempotent(s: seq<Key>)
    ensures Prune(Prune(s)) == Prune(s)
  {
    var p := Prune(s);
    forall e | e in p
      ensures !Doomed(p, e.uid)
    {
      PruneGroups(s, e.uid);
    }
    SurvivorsAll(p, p);
  }

  /** When every source is a MeSH or a SNOMED abbreviation, a group survives exactly
      when it holds both, which is the pairing the pass is after. */
  lemma PrunePairs(s: seq<Key>, e: Key)
    requires forall j :: 0 <= j < |s| ==> StartsWith(s[j].src, MeshSab) || StartsWith(s[j].src, SnomedSab)
    requires e in s
    ensures e in Prune(s) <==>
              HasPrefixed(Group(s, e.uid), MeshSab) && HasPrefixed(Group(s, e.uid), SnomedSab)
  {
    var g := Group(s, e.uid);
    assert e in g;
    var m := MinSrc(g);
    var k :| 0 <= k < |g| && g[k].src == m;
    assert g[k] in s;
    assert !Doomed(s, e.uid) <==> HasPrefixed(g, Sibling(m));
    if StartsWith(m, MeshSab) {
      assert HasPrefixed(g, MeshSab);
    } else {
      assert StartsWith(m, SnomedSab);
      assert HasPrefixed(g, SnomedSab);
    }
  }

  lemma {:induction false} DropGroup(s: seq<Key>, gone: set<string>, u: string)
    requires u !in gone
    ensures Group(Drop(s, gone), u) == Group(s, u)
  {
    if s != [] {
      DropGroup(s[1..], gone, u);
      var head := if s[0].uid in gone then [] else [s[0]];
      GroupAppend(head, Drop(s[1..], gone), u);
    }
  }

  lemma {:induction false} DropTwice(s: seq<Key>, gone: set<string>, u: string)
    ensures Drop(Drop(s, gone), {u}) == Drop(s, gone + {u})
  {
    if s != [] {
      DropTwice(s[1..], gone, u);
      var head := if s[0].uid in gone then [] else [s[0]];
      DropAppend(head, Drop(s[1..], gone), {u});
    }
  }

  lemma {:induction false} DropAppend(a: seq<Key>, b: seq<Key>, gone: set<string>)
    ensures Drop(a + b, gone) == Drop(a, gone) + Drop(b, gone)
  {
    if a != [] {
      var head := if a[0].uid in gone then [] else [a[0]];
      DropAppend(a[1..], b, gone);
      calc {
        Drop(a + b, gone);
        { assert (a + b)[0] == a[0] && (a + b)[1..] == a[1..] + b; }
        head + Drop(a[1..] + b, gone);
        head + (Drop(a[1..], gone) + Drop(b, gone));
        (head + Drop(a[1..], gone)) + Drop(b, gone);
      }
    } else {
      assert a + b == b;
    }
  }

  /** Erasing a uid none of the first `p` entries carry leaves them in place, and
      removes at least the entry at `p`. */
  lemma DropKeepsPrefix(s: seq<Key>, p: nat, u: string)
    requires p < |s| && s[p].uid == u
    requires forall j :: 0 <= j < p ==> s[j].uid != u
    ensures |Drop(s, {u})| < |s|
    ensures p <= |Drop(s, {u})| && Drop(s, {u})[..p] == s[..p]
  {
    assert s == s[..p] + s[p..];
    DropAppend(s[..p], s[p..], {u});
    DropNone(s[..p], {u});
    assert s[p..] == [s[p]] + s[p + 1..];
    DropAppend([s[p]], s[p + 1..], {u});
  }

  lemma {:induction false} DropNone(s: seq<Key>, gone: set<string>)
    requires forall j :: 0 <= j < |s| ==> s[j].uid !in gone
    ensures Drop(s, gone) == s
  {
    if s != [] {
      DropNone(s[1..], gone);
    }
  }

  /** Erasing exactly the doomed uids is pruning. */
  lemma {:induction false} DropIsSurvivors(t: seq<Key>, whole: seq<Key>, gone: set<string>)
    requires forall u :: u in gone ==> Doomed(whole, u)
    requires forall j :: 0 <= j < |Drop(t, gone)| ==> !Doomed(whole, Drop(t, gone)[j].uid)
    ensures Drop(t, gone) == Survivors(t, whole)
  {
    if t != [] {
      var head := if t[0].uid in gone then [] else [t[0]];
      var d := Drop(t, gone);
      assert d == head + Drop(t[1..], gone);
      forall j | 0 <= j < |Drop(t[1..], gone)|
        ensures !Doomed(whole, Drop(t[1..], gone)[j].uid)
      {
        assert Drop(t[1..], gone)[j] == d[|head| + j];
      }
      DropIsSurvivors(t[1..], whole, gone);
      if t[0].uid !in gone {
        assert d[0] == t[0];
      }
    }
  }

  lemma {:induction false} DropUid(s: seq<Key>, gone: set<string>, k: nat)
    requires k < |Drop(s, gone)|
    ensures Drop(s, gone)[k].uid !in gone
  {
    var head := if s[0].uid in gone then [] else [s[0]];
    assert Drop(s, gone) == head + Drop(s[1..], gone);
    if k >= |head| {
      DropUid(s[1..], gone, k - |head|);
    }
  }

  /** One erasure of the pass: the doomed group at the cursor goes, the entries before
      the cursor stay. */
  lemma EraseStep(orig: seq<Key>, gone: set<string>, records: seq<Key>, p: nat, u: string)
    requires records == Drop(orig, gone) && p < |records| && records[p].uid == u
    requires Doomed(orig, u)
    requires forall j :: 0 <= j < p ==> !Doomed(orig, records[j].uid)
    ensures Drop(records, {u}) == Drop(orig, gone + {u})
    ensures p <= |Drop(records, {u})| < |records|
    ensures forall j :: 0 <= j < p ==> !Doomed(orig, Drop(records, {u})[j].uid)
  {
    forall j | 0 <= j < p
      ensures records[j].uid != u
    {
    }
    DropKeepsPrefix(records, p, u);
    DropTwice(orig, gone, u);
    forall j | 0 <= j < p
      ensures !Doomed(orig, Drop(records, {u})[j].uid)
    {
      assert Drop(records, {u})[j] == Drop(records, {u})[..p][j];
    }
  }

  lemma {:induction false} SurvivorsNoDup(t: seq<Key>, whole: seq<Key>)
    requires NoDup(t)
    ensures NoDup(Survivors(t, whole))
  {
    if t != [] {
      assert NoDup(t[1..]);
      SurvivorsNoDup(t[1..], whole);
      assert t[0] !in t[1..];
    }
  }

  // ---------------------------------------------------------------- the MRCONSO document

  /** Every stored source is a MeSH or a SNOMED abbreviation. */
  predicate CodedSources(s: seq<Key>) {
    forall j :: 0 <= j < |s| ==> StartsWith(s[j].src, MeshSab) || StartsWith(s[j].src, SnomedSab)
  }

  /** Under the MRCONSO policies an admitted row is reduced to three columns, the second
      being a source abbreviation the coding pattern accepted. */
  lemma ConsoAdmitted(known: Option<set<string>>, line: string, store: seq<Key>)
    requires Admitted(ConsoPolicies(known), line, store).Some?
    ensures var row := Admitted(ConsoPolicies(known), line, store).value;
            |row.cols| == 3 && (StartsWith(row.cols[1], MeshSab) || StartsWith(row.cols[1], SnomedSab))
  {
    var pol := ConsoPolicies(known);
    var parsed := Parsed(line, pol.token);
    assert !Filter(pol.filter, parsed);
    ConsoFilterIntendedKeeps(parsed, known);
    ConsoSelection(parsed.cols);
  }

  lemma {:induction false} RunCoded(known: Option<set<string>>, file: SourceFile, i: nat, store: seq<Key>, rsize: int)
    requires i <= |file.lines| && CodedSources(store)
    ensures CodedSources(Run(ConsoPolicies(known), file, i, store, rsize).1)
    decreases |file.lines| - i
  {
    var pol := ConsoPolicies(known);
    if i < |file.lines| {
      match Admitted(pol, file.lines[i], store)
      case None => RunCoded(known, file, i + 1, store, rsize);
      case Some(row) =>
        var refused := rsize < row.size && i in file.refusals;
        match AllocOutcome(pol.builder, row.cols, refused)
        case Failed(err) =>
        case Stored(k) =>
          ConsoAdmitted(known, file.lines[i], store);
          RunCoded(known, file, i + 1, store + [k], NewRsize(rsize, row.size, DefaultArenaSize));
    }
  }

  /** A successfully loaded MRCONSO document holds no duplicate entry, and every uid it
      keeps has both a MeSH and a SNOMED source. */
  lemma ConsoDocumentPaired(known: Option<set<string>>, file: SourceFile)
    ensures var (res, st) := Load(ConsoPolicies(known), file, []);
            res.Ok() ==>
              && NoDup(st)
              && forall e :: e in st ==>
                   HasPrefixed(Group(st, e.uid), MeshSab) && HasPrefixed(Group(st, e.uid), SnomedSab)
  {
    var pol := ConsoPolicies(known);
    var (res, st0) := ParseSpec(pol, file, []);
    if res.Ok() {
      assert file.present && file.initError.None?;
      RunCoded(known, file, 0, [], 0);
      RunUnique(pol, file, 0, [], 0);
      var st := Prune(st0);
      SurvivorsNoDup(st0, st0);
      forall e | e in st
        ensures HasPrefixed(Group(st, e.uid), MeshSab) && HasPrefixed(Group(st, e.uid), SnomedSab)
      {
        PrunePairs(st0, e);
        PruneGroups(st0, e.uid);
      }
    }
  }

  /** `any_of` over a range. */
  method AnyPrefixed(range: seq<Key>, prefix: string) returns (has: bool)
    ensures has <==> HasPrefixed(range, prefix)
  {
    has := false;
    var k := 0;
    while k < |range| && !has
      invariant k <= |range|
      invariant has <==> exists j :: 0 <= j < k && StartsWith(range[j].src, prefix)
    {
      has := StartsWith(range[k].src, prefix);
      k := k + 1;
    }
  }

  /** `std::string_view{ptr}`: the bytes from `at` up to the first NUL. */
  method StrView(buf: array<char>, at: nat) returns (s: string)
    requires at <= buf.Length
    ensures s == CStr(buf[at..])
  {
    var e := at;
    while e < buf.Length && buf[e] != NUL
      invariant at <= e <= buf.Length
      invariant NUL !in buf[at..e]
    {
      e := e + 1;
    }
    s := buf[at..e];
    assert buf[at..] == s + buf[e..];
    CStrOfClean(s, buf[e..]);
  }

  // ---------------------------------------------------------------- the document

  class SctDocument {
    const pol: DocPolicies
    var result: Result
    var records: seq<Key>
    var allocator: Arena?

    /** The constructor runs `buildSctping` on the file. */
    constructor (pol: DocPolicies, file: SourceFile)
      requires WellFormed(pol)
      ensures this.pol == pol
      ensures (result, records) == Load(pol, file, [])
    {
      this.pol := pol;
      result := Default();
      records := [];
      allocator := null;
      new;
      BuildSctping(file);
    }

    /** `Ok()`. */
    function Ok(): (ok: bool)
      reads this
      ensures ok <==> result.status == Successful
    {
      result.Ok()
    }

    /** `buildSctping`. */
    method BuildSctping(file: SourceFile)
      requires WellFormed(pol)
      modifies this
      ensures (result, records) == Load(pol, file, old(records))
    {
      var res := ParseFile(file);
      if !res.Ok() {
        result := res;
        return;
      }
      ConsistencyPass();
      result := res;
    }

    /** `parseFile`: one pass over the lines, storing the key of every admitted row. */
    method ParseFile(file: SourceFile) returns (res: Result)
      requires WellFormed(pol)
      modifies this
      ensures (res, records) == ParseSpec(pol, file, old(records))
      ensures result == old(result)
      ensures file.present ==> allocator != null && fresh(allocator) && allocator.Valid()
      ensures !file.present ==> allocator == old(allocator)
    {
      if !file.present {
        return WithStatus(FileNotFoundErr);
      }
      allocator := new Arena(DefaultArenaSize);
      if file.initError.Some? {
        return Result(FileInitErr, file.initError.value);
      }
      res := ParseLines(file);
    }

    /** The line loop of `parseFile`, over a fresh arena. */
    method ParseLines(file: SourceFile) returns (res: Result)
      requires WellFormed(pol)
      requires allocator != null && allocator.Valid()
      requires allocator.mcsize == DefaultArenaSize && allocator.rsize == 0
      modifies this, allocator
      ensures (res, records) == Run(pol, file, 0, old(records), 0)
      ensures result == old(result) && allocator == old(allocator) && allocator.Valid()
    {
      ghost var spec := Run(pol, file, 0, records, 0);
      var store := records;
      var i := 0;
      while i < |file.lines|
        invariant i <= |file.lines|
        invariant allocator == old(allocator) && allocator.Valid()
        invariant allocator.mcsize == DefaultArenaSize
        invariant result == old(result)
        invariant spec == Run(pol, file, i, store, allocator.rsize)
      {
        var next, err := ParseStep(allocator, file, i, store);
        if err.Some? {
          records := store;
          return err.value;
        }
        store := next;
        i := i + 1;
      }
      RunEnds(pol, file, store, allocator.rsize);
      records := store;
      if file.readError.Some? {
        return Result(LineReaderErr, file.readError.value);
      }
      return WithStatus(Successful);
    }

    /** One iteration of `parseFile` on line `i`: the per-line checks, then the grant
        the system would make (none for a refused line) and `allocRow`. */
    method ParseStep(arena: Arena, file: SourceFile, i: nat, store: seq<Key>) returns (next: seq<Key>, err: Option<Result>)
      requires WellFormed(pol) && i < |file.lines|
      requires arena.Valid() && arena.mcsize == DefaultArenaSize
      modifies arena
      ensures arena.Valid()
      ensures err.Some? ==> Run(pol, file, i, store, old(arena.rsize)) == (err.value, store)
      ensures err.None? ==>
                Run(pol, file, i, store, old(arena.rsize)) == Run(pol, file, i + 1, next, arena.rsize)
    {
      var admitted := AdmitRow(file.lines[i], store);
      if admitted.None? {
        RunSkips(pol, file, i, store, arena.rsize);
        return store, None;
      }
      var selected := admitted.value;
      AdmittedClean(pol, file.lines[i], store);
      var grant := if i in file.refusals then Null else arena.NextFree();
      var out := AllocRow(arena, selected.cols, selected.size, grant);
      if out.Failed? {
        RunFails(pol, file, i, store, old(arena.rsize), selected, out.err);
        return store, Some(out.err);
      }
      RunStores(pol, file, i, store, old(arena.rsize), selected, out.key);
      return store + [out.key], None;
    }

    /** The per-line checks of `parseFile`: parse, filter, select, map policy. */
    method AdmitRow(line: string, store: seq<Key>) returns (admitted: Option<Row>)
      ensures admitted == Admitted(pol, line, store)
    {
      var row := ParseLine(line, pol.token);
      if row.status != Successful || Filter(pol.filter, row) {
        return None;
      }
      var selected := row;
      if pol.selector.ColumnsSelected? {
        selected := ColumnSelect(row, pol.selector.indices);
      }
      if selected.status != Successful || !ShouldMap(pol.mapping, selected, store) {
        return None;
      }
      return Some(selected);
    }

    /** `allocRow`: reserves `size` bytes in the arena, then packs the columns there
        and reads the key back through the record's pointers. The packed bytes are a
        fresh array standing for the block the arena handed out. */
    method AllocRow(arena: Arena, cols: seq<string>, size: nat, grant: nat) returns (out: Outcome)
      requires arena.Valid() && size == SizeHint(cols)
      requires arena.rsize < size ==> arena.FreshFor(grant, RegionSize(size, arena.mcsize))
      requires pol.builder.ConsoBuilder? ==> |cols| >= 3
      requires forall j :: 0 <= j < |cols| ==> NUL !in cols[j]
      modifies arena
      ensures arena.Valid()
      ensures out == AllocOutcome(pol.builder, cols, old(arena.rsize) < size && grant == Null)
      ensures !(old(arena.rsize) < size && grant == Null) ==>
                arena.rsize == NewRsize(old(arena.rsize), size, arena.mcsize)
    {
      var ok, ptr := arena.Allocate(size, grant);
      if !ok {
        var msg := FormatAllocFailure(cols, size);
        return Failed(Result(AllocationErr, msg));
      }
      out := BuildRow(cols, size);
    }

    /** The builder half of `allocRow`, once the bytes are reserved: the policy's
        builder packs the columns into them and the key is read back through the
        record's pointers. */
    method BuildRow(cols: seq<string>, size: nat) returns (out: Outcome)
      requires size == SizeHint(cols)
      requires pol.builder.ConsoBuilder? ==> |cols| >= 3
      requires forall j :: 0 <= j < |cols| ==> NUL !in cols[j]
      ensures out == AllocOutcome(pol.builder, cols, false)
    {
      if pol.builder.NoBuilder? {
        return Failed(Result(PolicyErr, BuildFailure));
      }
      var buf := new char[size];
      var built, rec := ConsoRecord(cols, buf);
      if !built {
        return Failed(Result(PolicyErr, BuildFailure));
      }
      assert Written(cols) == cols;
      assert buf[..] == Join(cols, NUL);
      PackedReadBack(cols, 0);
      PackedReadBack(cols, 1);
      PackedReadBack(cols, 2);
      var uid := StrView(buf, rec.uidBuf.value);
      var src := StrView(buf, rec.srcBuf.value);
      var trg := StrView(buf, rec.trgBuf.value);
      return Stored(Key(uid, src, trg));
    }

    /** The consistency pass of `buildSctping`: the group of the entry at the cursor is
        looked up; a group without the sibling source is erased as a whole, otherwise
        the cursor moves to the next entry. The walk is over the store in insertion
        order, one entry at a time, so a kept group is looked up again at each of its
        entries; the source walks key order and jumps past the group, which reaches
        the same groups when each uid's entries form one run (`GroupsContiguous`). */
    method ConsistencyPass()
      modifies this`records
      ensures records == Prune(old(records))
    {
      var rs := records;
      ghost var orig := records;
      ghost var gone: set<string> := {};
      DropNone(rs, gone);
      var p: nat := 0;
      while p < |rs|
        invariant p <= |rs|
        invariant rs == Drop(orig, gone)
        invariant forall u :: u in gone ==> Doomed(orig, u)
        invariant forall j :: 0 <= j < p ==> !Doomed(orig, rs[j].uid)
        decreases |rs| - p
      {
        rs, p, gone := Visit(orig, rs, p, gone);
      }
      DropIsSurvivors(orig, orig, gone);
      records := rs;
    }
  }

  /** One step of the consistency pass at cursor `p`: the group of the entry there is
      erased when it lacks the sibling source, otherwise the cursor advances by one
      entry. */
  method Visit(ghost orig: seq<Key>, rs: seq<Key>, p: nat, ghost gone: set<string>)
      returns (rs': seq<Key>, p': nat, ghost gone': set<string>)
    requires p < |rs| && rs == Drop(orig, gone)
    requires forall u :: u in gone ==> Doomed(orig, u)
    requires forall j :: 0 <= j < p ==> !Doomed(orig, rs[j].uid)
    ensures p' <= |rs'| && rs' == Drop(orig, gone')
    ensures forall u :: u in gone' ==> Doomed(orig, u)
    ensures forall j :: 0 <= j < p' ==> !Doomed(orig, rs'[j].uid)
    ensures |rs'| - p' < |rs| - p
  {
    var u := rs[p].uid;
    DropUid(orig, gone, p);
    DropGroup(orig, gone, u);
    var range := Group(rs, u);
    assert rs[p] in range;
    var sibling := Sibling(MinSrc(range));
    var has := AnyPrefixed(range, sibling);
    assert Group(orig, u) == range;
    assert has <==> !Doomed(orig, u);
    if !has {
      EraseStep(orig, gone, rs, p, u);
      rs', p', gone' := Drop(rs, {u}), p, gone + {u};
    } else {
      ghost var kept := !Doomed(orig, u);
      forall j | 0 <= j < p + 1
        ensures !Doomed(orig, rs[j].uid)
      {
        if j == p {
          assert kept;
        }
      }
      rs', p', gone' := rs, p + 1, gone;
    }
  }

  /** The `kAllocationErr` message, written column by column as the stream does. */
  method FormatAllocFailure(cols: seq<string>, size: nat) returns (msg: string)
    ensures msg == AllocFailureMessage(cols, size)
  {
    msg := AllocHeader + NatToString(size) + "> with data:\n\t| ";
    var index := 0;
    while index < |cols|
      invariant index <= |cols|
      invariant msg + Cells(cols[index..]) == AllocFailureMessage(cols, size)
    {
      var sep := if index == |cols| - 1 then " |" else " | ";
      assert Cells(cols[index..]) == cols[index] + sep + Cells(cols[index + 1..]);
      msg := msg + cols[index] + sep;
      index := index + 1;
    }
  }
}
