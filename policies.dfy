/** The MRCONSO row policies plugged into the xref document
    (src/builder/policies.cpp, constants from src/mapper/constants.hpp). */
module Policies {
  import opened Text
  import opened Results
  import opened Rows

  /** MRCONSO layout. */
  const ConsoColumnWidth: nat := 18
  const LangCol: nat := 1
  const SourceCol: nat := 11
  const TargetCol: nat := 13
  const SuppressCol: nat := 16

  const MeshSab: string := "MSH"
  const SnomedSab: string := "SNOMED"

  predicate LineTerminator(c: char) {
    c == '\n' || c == '\r'
  }

  /** The lookahead `(?!.*?VET$)` after "SNOMED" fails: the abbreviation ends in VET
      after the prefix with no line terminator in between (`.` stops at one). */
  predicate VetTail(sab: string) {
    && |sab| >= 9
    && EndsWith(sab, "VET")
    && forall i :: 6 <= i < |sab| - 3 ==> !LineTerminator(sab[i])
  }

  /** `regex_search` of `^(SNOMED(?!.*?VET$))|^(MSH)` on the source abbreviation. */
  predicate CodingMatch(sab: string) {
    (StartsWith(sab, SnomedSab) && !VetTail(sab)) || StartsWith(sab, MeshSab)
  }

  /** `consoFilter`: true rejects the row. `known` is the MeSH document's set of
      descriptor identifiers when one is loaded. The MeSH branch rejects a code the
      document knows, as written. */
  function ConsoFilter(row: Row, known: Option<set<string>>): (reject: bool)
    ensures |row.cols| < ConsoColumnWidth ==> reject
    ensures |row.cols| >= ConsoColumnWidth && (row.cols[LangCol] != "ENG" || row.cols[SuppressCol] == "O") ==> reject
  {
    var cols := row.cols;
    if |cols| < ConsoColumnWidth then true
    else if cols[LangCol] != "ENG" || cols[SuppressCol] == "O" then true
    else
      var code := cols[TargetCol];
      var sab := cols[SourceCol];
      if |sab| < 1 || |code| < 3 then true
      else
        var matched := CodingMatch(sab);
        match known
        case None => !matched
        case Some(ids) =>
          if !matched then true
          else if StartsWith(sab, MeshSab) then code in ids
          else false
  }

  /** The filter as evidently intended: an MSH row is kept when the MeSH document
      knows its code. */
  function ConsoFilterIntended(row: Row, known: Option<set<string>>): (reject: bool)
  {
    var cols := row.cols;
    if |cols| < ConsoColumnWidth then true
    else if cols[LangCol] != "ENG" || cols[SuppressCol] == "O" then true
    else
      var code := cols[TargetCol];
      var sab := cols[SourceCol];
      if |sab| < 1 || |code| < 3 then true
      else
        var matched := CodingMatch(sab);
        match known
        case None => !matched
        case Some(ids) =>
          if !matched then true
          else if StartsWith(sab, MeshSab) then code !in ids
          else false
  }

  /** The fields every kept row satisfies, whichever variant and MeSH document. */
  predicate BaseAccepted(cols: seq<string>) {
    && |cols| >= ConsoColumnWidth
    && cols[LangCol] == "ENG" && cols[SuppressCol] != "O"
    && |cols[SourceCol]| >= 1 && |cols[TargetCol]| >= 3
    && CodingMatch(cols[SourceCol])
  }

  /** A row is kept exactly when it is a well-formed English, unsuppressed SNOMED or
      MeSH row, and, with a MeSH document, its MeSH code is unknown to it (as written). */
  lemma ConsoFilterKeeps(row: Row, known: Option<set<string>>)
    ensures !ConsoFilter(row, known) <==>
              && BaseAccepted(row.cols)
              && (known.Some? && StartsWith(row.cols[SourceCol], MeshSab) ==>
                    row.cols[TargetCol] !in known.value)
  {
  }

  /** The intended filter keeps an MSH row exactly when its code is known. */
  lemma ConsoFilterIntendedKeeps(row: Row, known: Option<set<string>>)
    ensures !ConsoFilterIntended(row, known) <==>
              && BaseAccepted(row.cols)
              && (known.Some? && StartsWith(row.cols[SourceCol], MeshSab) ==>
                    row.cols[TargetCol] in known.value)
  {
  }

  /** Loading a MeSH document only ever narrows what the intended filter keeps. */
  lemma MeshNarrows(row: Row, ids: set<string>)
    ensures !ConsoFilterIntended(row, Some(ids)) ==> !ConsoFilterIntended(row, None)
    ensures !ConsoFilter(row, Some(ids)) ==> !ConsoFilter(row, None)
  {
    ConsoFilterKeeps(row, Some(ids));
    ConsoFilterIntendedKeeps(row, Some(ids));
  }

  /** A full MRCONSO row used in the examples below. */
  function SampleRow(sab: string, code: string): (r: Row)
    ensures |r.cols| == ConsoColumnWidth && r.cols[SourceCol] == sab && r.cols[TargetCol] == code
  {
    Row(["C0000005", "ENG", "P", "L0000005", "PF", "S0007492", "Y", "A26634265", "", "M0019694",
         "D012711", sab, "PEP", code, "(131)I-Macroaggregated Albumin", "0", "N", "256"], 0, Successful)
  }

  /** As written, an MSH row whose code the MeSH document knows is rejected, and one
      whose code it does not know is kept; the intended filter does the opposite. */
  lemma KnownMeshCodeRejected()
    ensures var row := SampleRow("MSH", "D012711");
            && ConsoFilter(row, Some({"D012711"}))
            && !ConsoFilter(row, Some({}))
            && !ConsoFilterIntended(row, Some({"D012711"}))
            && ConsoFilterIntended(row, Some({}))
  {
    var row := SampleRow("MSH", "D012711");
    assert StartsWith(row.cols[SourceCol], MeshSab);
    assert CodingMatch(row.cols[SourceCol]);
  }

  /** The coding pattern keeps SNOMED sources other than the veterinary extension, and
      MeSH. */
  lemma CodingExamples()
    ensures CodingMatch("SNOMEDCT_US") && CodingMatch("MSH") && CodingMatch("MSHFRE")
    ensures !CodingMatch("SNOMEDCT_VET") && !CodingMatch("MEDLINEPLUS")
    ensures CodingMatch("SNOMEDCT_VET\nX")
  {
    assert StartsWith("SNOMEDCT_US", SnomedSab);
    assert !EndsWith("SNOMEDCT_US", "VET");
    assert StartsWith("MSH", MeshSab);
    assert StartsWith("MSHFRE", MeshSab);
    assert StartsWith("SNOMEDCT_VET", SnomedSab) && EndsWith("SNOMEDCT_VET", "VET");
    assert !StartsWith("MEDLINEPLUS", SnomedSab) by { assert "MEDLINEPLUS"[0] != SnomedSab[0]; }
    assert !StartsWith("MEDLINEPLUS", MeshSab) by { assert "MEDLINEPLUS"[1] != MeshSab[1]; }
    assert StartsWith("SNOMEDCT_VET\nX", SnomedSab);
    assert !EndsWith("SNOMEDCT_VET\nX", "VET");
  }

  // ---------------------------------------------------------------- consoCheck

  /** The lookup `consoCheck` builds from the selected columns. */
  function RowLookup(cols: seq<string>): Lookup
    requires |cols| >= 3
  {
    Lookup(cols[0], cols[1], cols[2])
  }

  /** The multimap holds an entry the comparator treats as equal to the lookup. */
  predicate Contains(store: seq<Key>, lk: Lookup) {
    exists e :: e in store && !KeyBeforeLookup(e, lk) && !LookupBeforeKey(lk, e)
  }

  /** `consoCheck` as evidently intended: map the row only if it has three columns, a
      positive size, and no stored entry matches its (uid, source, target). The
      multimap's own lookup can miss a match (`ConsoCheckAsWritten`). */
  function ConsoCheck(row: Row, store: seq<Key>): (ok: bool)
    ensures ok ==> |row.cols| >= 3 && row.size >= 1
  {
    if |row.cols| < 3 || row.size < 1 then false
    else !Contains(store, RowLookup(row.cols))
  }

  /** A mapped row's key is not yet stored, so inserting it keeps the store free of
      duplicates. */
  lemma ConsoCheckFresh(row: Row, store: seq<Key>)
    requires ConsoCheck(row, store)
    ensures Key(row.cols[0], row.cols[1], row.cols[2]) !in store
  {
    var k := Key(row.cols[0], row.cols[1], row.cols[2]);
    if k in store {
      LookupEquivalence(k, RowLookup(row.cols));
      assert false;
    }
  }

  /** Rejection means exactly that some stored entry spells the same text over the
      components the lookup compares. */
  lemma ConsoCheckSpec(row: Row, store: seq<Key>)
    requires |row.cols| >= 3 && row.size >= 1
    ensures !ConsoCheck(row, store) <==>
              exists e :: e in store && Projection(e, RowLookup(row.cols)) == LookupText(RowLookup(row.cols))
  {
    var lk := RowLookup(row.cols);
    forall e | e in store
      ensures (!KeyBeforeLookup(e, lk) && !LookupBeforeKey(lk, e)) <==> Projection(e, lk) == LookupText(lk)
    {
      LookupEquivalence(e, lk);
    }
  }

  // ---------------------------------------------------------------- the multimap's own lookup

  /** The multimap in key order: no entry is preceded by a later one. */
  predicate Sorted(s: seq<Key>) {
    forall i, j :: 0 <= i < j < |s| ==> !KeyLess(s[j], s[i])
  }

  /** `emplace` into the multimap, seen through its in-order sequence: the key goes in
      front of the first entry it precedes, so after every entry it is equivalent to
      and equal keys keep their insertion order. */
  function Emplace(sorted: seq<Key>, k: Key): (r: seq<Key>)
    ensures multiset(r) == multiset(sorted) + multiset{k}
    ensures |r| == |sorted| + 1
  {
    if sorted == [] || KeyLess(k, sorted[0]) then [k] + sorted
    else
      assert sorted == [sorted[0]] + sorted[1..];
      [sorted[0]] + Emplace(sorted[1..], k)
  }

  /** Emplacing keeps the multimap in key order. */
  lemma {:induction false} EmplaceSorted(sorted: seq<Key>, k: Key)
    requires Sorted(sorted)
    ensures Sorted(Emplace(sorted, k))
  {
    if sorted == [] || KeyLess(k, sorted[0]) {
      forall j | 0 <= j < |sorted|
        ensures !KeyLess(sorted[j], k)
      {
        if KeyLess(sorted[j], k) {
          KeyLessStrict(sorted[j], k, sorted[0]);
          assert false;
        }
      }
      var r := [k] + sorted;
      assert forall j :: 0 < j < |r| ==> r[j] == sorted[j - 1];
    } else {
      EmplaceSorted(sorted[1..], k);
      var r := Emplace(sorted[1..], k);
      forall j | 0 <= j < |r|
        ensures !KeyLess(r[j], sorted[0])
      {
        assert r[j] in multiset(r);
        assert r[j] in multiset(sorted[1..]) || r[j] == k;
        if r[j] != k {
          var m :| 0 <= m < |sorted[1..]| && sorted[1..][m] == r[j];
          assert sorted[m + 1] == r[j];
        }
      }
    }
  }

  /** The multimap's in-order sequence after emplacing the keys of `store` one by one. */
  function InOrder(store: seq<Key>): (r: seq<Key>)
    ensures multiset(r) == multiset(store)
  {
    if store == [] then []
    else
      assert store == store[..|store| - 1] + [store[|store| - 1]];
      Emplace(InOrder(store[..|store| - 1]), store[|store| - 1])
  }

  /** Whatever the insertion order, the multimap is in key order. */
  lemma {:induction false} InOrderSorted(store: seq<Key>)
    ensures Sorted(InOrder(store))
  {
    if store != [] {
      InOrderSorted(store[..|store| - 1]);
      EmplaceSorted(InOrder(store[..|store| - 1]), store[|store| - 1]);
    }
  }

  /** Emplacing after a single entry the key does not precede. */
  lemma EmplaceAfterLast(x: Key, k: Key)
    requires !KeyLess(k, x)
    ensures Emplace([x], k) == [x, k]
  {
    assert [x][1..] == [];
  }

  /** Emplacing a key that precedes the first entry. */
  lemma EmplaceFirst(s: seq<Key>, k: Key)
    requires s != [] && KeyLess(k, s[0])
    ensures Emplace(s, k) == [k] + s
  {
  }

  /** The in-order sequence grows by one emplacement per stored key. */
  lemma InOrderSnoc(store: seq<Key>, k: Key)
    ensures InOrder(store + [k]) == Emplace(InOrder(store), k)
  {
    assert (store + [k])[..|store|] == store;
  }

  /** `lower_bound` with the lookup: the first entry the lookup does not follow. */
  function LowerBound(sorted: seq<Key>, lk: Lookup): (i: nat)
    ensures i <= |sorted|
  {
    if sorted == [] || !KeyBeforeLookup(sorted[0], lk) then 0
    else 1 + LowerBound(sorted[1..], lk)
  }

  /** Every entry before the lower bound precedes the lookup, and the entry there does
      not. */
  lemma {:induction false} LowerBoundSpec(sorted: seq<Key>, lk: Lookup)
    ensures forall j :: 0 <= j < LowerBound(sorted, lk) ==> KeyBeforeLookup(sorted[j], lk)
    ensures LowerBound(sorted, lk) < |sorted| ==> !KeyBeforeLookup(sorted[LowerBound(sorted, lk)], lk)
  {
    if sorted != [] && KeyBeforeLookup(sorted[0], lk) {
      LowerBoundSpec(sorted[1..], lk);
      forall j | 1 <= j < LowerBound(sorted, lk)
        ensures KeyBeforeLookup(sorted[j], lk)
      {
        assert sorted[j] == sorted[1..][j - 1];
      }
    }
  }

  /** `contains` as the multimap implements it: one comparison at the lower bound. */
  predicate ContainsAsWritten(sorted: seq<Key>, lk: Lookup) {
    var i := LowerBound(sorted, lk);
    i < |sorted| && !LookupBeforeKey(lk, sorted[i])
  }

  /** `consoCheck` with the multimap's own lookup. */
  function ConsoCheckAsWritten(row: Row, store: seq<Key>): (ok: bool)
    ensures ok ==> |row.cols| >= 3 && row.size >= 1
  {
    if |row.cols| < 3 || row.size < 1 then false
    else !ContainsAsWritten(InOrder(store), RowLookup(row.cols))
  }

  /** What the lookup finds is really there: the multimap's `contains` never refuses a
      row the exact check accepts, it can only miss. */
  lemma ContainsAsWrittenSound(store: seq<Key>, lk: Lookup)
    requires ContainsAsWritten(InOrder(store), lk)
    ensures Contains(store, lk)
  {
    var sorted := InOrder(store);
    var i := LowerBound(sorted, lk);
    LowerBoundSpec(sorted, lk);
    var e := sorted[i];
    assert !KeyBeforeLookup(e, lk) && !LookupBeforeKey(lk, e);
    InOrderMembers(store, e);
  }

  /** The in-order sequence and the insertion sequence hold the same keys. */
  lemma InOrderMembers(store: seq<Key>, e: Key)
    ensures e in InOrder(store) <==> e in store
  {
    assert e in InOrder(store) <==> e in multiset(InOrder(store));
    assert e in store <==> e in multiset(store);
  }

  /** Where an entry stands relative to the lookup: before it, equivalent, after it. */
  function Rank(e: Key, lk: Lookup): nat {
    if KeyBeforeLookup(e, lk) then 0
    else if LookupBeforeKey(lk, e) then 2
    else 1
  }

  /** The multimap's order agrees with the lookup's: entries before the lookup come
      first, then the equivalent ones, then those after it. */
  predicate LookupOrdered(sorted: seq<Key>, lk: Lookup) {
    forall i, j :: 0 <= i < j < |sorted| ==> Rank(sorted[i], lk) <= Rank(sorted[j], lk)
  }

  /** Under an ordering that agrees with the lookup's, the lower bound lands on an
      equivalent entry whenever there is one. */
  lemma LowerBoundFinds(sorted: seq<Key>, lk: Lookup, m: nat)
    requires LookupOrdered(sorted, lk)
    requires m < |sorted| && Rank(sorted[m], lk) == 1
    ensures ContainsAsWritten(sorted, lk)
  {
    var i := LowerBound(sorted, lk);
    LowerBoundSpec(sorted, lk);
    assert i <= m;
    assert Rank(sorted[i], lk) <= Rank(sorted[m], lk);
  }

  /** When the multimap's order agrees with the lookup's, the lookup is exact. */
  lemma OrderedLookupExact(store: seq<Key>, lk: Lookup)
    requires LookupOrdered(InOrder(store), lk)
    ensures ContainsAsWritten(InOrder(store), lk) <==> Contains(store, lk)
  {
    var sorted := InOrder(store);
    if ContainsAsWritten(sorted, lk) {
      ContainsAsWrittenSound(store, lk);
    }
    if Contains(store, lk) {
      var e :| e in store && !KeyBeforeLookup(e, lk) && !LookupBeforeKey(lk, e);
      InOrderMembers(store, e);
      var m :| 0 <= m < |sorted| && sorted[m] == e;
      assert Rank(sorted[m], lk) == 1;
      LowerBoundFinds(sorted, lk, m);
    }
  }

  /** On two rows of one concept and source whose targets arrive out of order, the
      lookup misses the key it stored: the lower bound is the first of the run, the
      lookup precedes it, and the same (uid, source, target) is accepted twice. */
  lemma LookupMissesStoredKey()
    ensures var k200 := Key("C1", "SNOMEDCT_US", "200");
            var k100 := Key("C1", "SNOMEDCT_US", "100");
            var r200 := Row(["C1", "SNOMEDCT_US", "200"], 19, Successful);
            var r100 := Row(["C1", "SNOMEDCT_US", "100"], 19, Successful);
            && ConsoCheckAsWritten(r200, [])
            && ConsoCheckAsWritten(r100, [k200])
            && ConsoCheckAsWritten(r100, [k200, k100])
            && !ConsoCheck(r100, [k200, k100])
  {
    var k200 := Key("C1", "SNOMEDCT_US", "200");
    var k100 := Key("C1", "SNOMEDCT_US", "100");
    var lk := Lookup("C1", "SNOMEDCT_US", "100");
    var u := "C1SNOMEDCT_US";
    assert Projection(k200, lk) == u + "200" && Projection(k100, lk) == u + "100";
    assert LookupText(lk) == u + "100";
    LexSharedPrefix(u, "200", "100");
    LexSharedPrefix(u, "100", "200");
    LexIrreflexive(u + "100");
    LexIrreflexive(k100.uid + k100.src);
    assert !KeyLess(k100, k200);
    assert [k200][..0] == [];
    assert [k200, k100][..1] == [k200];
    assert InOrder([k200]) == [k200];
    assert InOrder([k200, k100]) == [k200, k100];
    assert LowerBound([k200, k100], lk) == 0;
    assert LowerBound([k200], lk) == 0;
    assert RowLookup(["C1", "SNOMEDCT_US", "100"]) == lk;
    LookupEquivalence(k100, lk);
    assert k100 in [k200, k100];
  }

  // ---------------------------------------------------------------- consoRecord

  /** Offsets of the three record fields in the packed buffer; `None` is `nullptr`. */
  datatype SctRecord = SctRecord(uidBuf: Option<nat>, srcBuf: Option<nat>, trgBuf: Option<nat>)

  /** The columns `consoRecord` writes before returning: at most four. */
  function Written(cols: seq<string>): seq<string> {
    if |cols| <= 4 then cols else cols[..4]
  }

  /** Where column `k` starts once packed. */
  function Offset(cols: seq<string>, k: nat): nat
    requires k <= |cols|
  {
    SizeHint(cols[..k])
  }

  lemma {:induction false} SizeHintPrefix(cols: seq<string>, k: nat)
    requires k <= |cols|
    ensures SizeHint(cols[..k]) <= SizeHint(cols)
    decreases |cols| - k
  {
    if k < |cols| {
      SizeHintPrefix(cols, k + 1);
      assert cols[..k + 1][..k] == cols[..k];
    } else {
      assert cols[..k] == cols;
    }
  }

  /** The record after the first `n` columns have been placed. */
  function Placed(cols: seq<string>, n: nat): (rec: SctRecord)
    requires n <= |cols|
  {
    SctRecord(if n > 0 then Some(0) else None,
              if n > 1 then Some(Offset(cols, 1)) else None,
              if n > 2 then Some(Offset(cols, 2)) else None)
  }

  /** Pointing field `k` at the start of column `k`. */
  function Point(rec: SctRecord, k: nat, at: nat): SctRecord
    requires k < 3
  {
    if k == 0 then rec.(uidBuf := Some(at))
    else if k == 1 then rec.(srcBuf := Some(at))
    else rec.(trgBuf := Some(at))
  }

  /** `consoRecord`: copies each column followed by NUL at a running offset into a
      buffer sized for the row, pointing the uid, source and target fields at the first
      three; a fourth column is written and then refused. */
  method ConsoRecord(cols: seq<string>, buf: array<char>) returns (ok: bool, rec: SctRecord)
    requires SizeHint(cols) <= buf.Length
    modifies buf
    ensures ok <==> |cols| <= 3
    ensures SizeHint(Written(cols)) <= buf.Length
    ensures buf[..SizeHint(Written(cols))] == Join(Written(cols), NUL)
    ensures buf[SizeHint(Written(cols))..] == old(buf[SizeHint(Written(cols))..])
    ensures rec.uidBuf == (if |cols| > 0 then Some(0) else None)
    ensures rec.srcBuf == (if |cols| > 1 then Some(Offset(cols, 1)) else None)
    ensures rec.trgBuf == (if |cols| > 2 then Some(Offset(cols, 2)) else None)
  {
    ghost var w := Written(cols);
    ghost var end := SizeHint(w);
    SizeHintPrefix(cols, |w|);
    assert cols[..|w|] == w;
    rec := SctRecord(None, None, None);
    var offset := 0;
    var index := 0;
    while index < |cols|
      invariant index <= |w| && index <= 3
      invariant offset == SizeHint(cols[..index]) <= end <= buf.Length
      invariant buf[..offset] == Join(cols[..index], NUL)
      invariant buf[end..] == old(buf[end..])
      invariant rec == Placed(cols, index)
    {
      var origin := offset;
      var col := cols[index];
      PackColumn(cols, index, buf, origin);
      offset := origin + |col| + 1;
      if index == 3 {
        assert cols[..index + 1] == w;
        return false, rec;
      }
      rec := Point(rec, index, origin);
      index := index + 1;
    }
    assert cols[..index] == cols == w;
    ok := true;
  }

  /** Writes column `k` and its terminator right after the first `k` columns. */
  method PackColumn(cols: seq<string>, k: nat, buf: array<char>, origin: nat)
    requires k < |cols| && k < 4 && origin == SizeHint(cols[..k])
    requires origin <= SizeHint(Written(cols)) <= buf.Length
    requires buf[..origin] == Join(cols[..k], NUL)
    modifies buf
    ensures SizeHint(cols[..k + 1]) == origin + |cols[k]| + 1 <= SizeHint(Written(cols))
    ensures buf[..origin + |cols[k]| + 1] == Join(cols[..k + 1], NUL)
    ensures buf[SizeHint(Written(cols))..] == old(buf[SizeHint(Written(cols))..])
  {
    var col := cols[k];
    SizeHintStep(cols, k);
    SizeHintPrefix(Written(cols), k + 1);
    assert Written(cols)[..k + 1] == cols[..k + 1];
    Copy(buf, origin, col);
    buf[origin + |col|] := NUL;
    PackStep(cols, k, buf[..], origin);
  }

  lemma SizeHintStep(cols: seq<string>, k: nat)
    requires k < |cols|
    ensures SizeHint(cols[..k + 1]) == SizeHint(cols[..k]) + |cols[k]| + 1
  {
    assert cols[..k + 1][..k] == cols[..k];
  }

  lemma PackStep(cols: seq<string>, k: nat, b: seq<char>, origin: nat)
    requires k < |cols| && origin == SizeHint(cols[..k])
    requires origin + |cols[k]| < |b|
    requires b[..origin] == Join(cols[..k], NUL)
    requires b[origin..origin + |cols[k]|] == cols[k] && b[origin + |cols[k]|] == NUL
    ensures b[..origin + |cols[k]| + 1] == Join(cols[..k + 1], NUL)
  {
    assert cols[..k + 1] == cols[..k] + [cols[k]];
    JoinAppend(cols[..k], [cols[k]], NUL);
    assert Join([cols[k]], NUL) == cols[k] + [NUL] + Join([], NUL);
    assert b[..origin + |cols[k]| + 1] == b[..origin] + b[origin..origin + |cols[k]|] + [b[origin + |cols[k]|]];
  }

  /** `memcpy(ptr + at, s, |s|)`. */
  method Copy(buf: array<char>, at: nat, s: string)
    requires at + |s| <= buf.Length
    modifies buf
    ensures buf[..at] == old(buf[..at])
    ensures buf[at..at + |s|] == s
    ensures buf[at + |s|..] == old(buf[at + |s|..])
  {
    forall j | 0 <= j < |s| {
      buf[at + j] := s[j];
    }
  }

  /** Reading a packed field back as a C string yields the column, provided the
      column holds no NUL. */
  lemma PackedReadBack(cols: seq<string>, k: nat)
    requires k < |cols| && NUL !in cols[k]
    ensures Offset(cols, k) < |Join(cols, NUL)|
    ensures CStr(Join(cols, NUL)[Offset(cols, k)..]) == cols[k]
  {
    JoinSuffix(cols, k, NUL);
    var rest := Join(cols[k + 1..], NUL);
    JoinCons(cols[k..], NUL);
    assert cols[k..][1..] == cols[k + 1..];
    assert Join(cols[k..], NUL) == cols[k] + ([NUL] + rest);
    CStrOfClean(cols[k], [NUL] + rest);
  }
}
