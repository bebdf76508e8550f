/** Row-policy primitives of the xref pipeline (src/mapper/defs.hpp): the delimiter
    splitter, column selection by index, and the ordering of the record multimap. */
module Rows {
  import opened Text
  import opened Results

  /** A parsed line: its columns, the bytes needed to store them NUL-terminated, and
      whether anything was parsed (`MapRow`). */
  datatype Row = Row(cols: seq<string>, size: nat, status: Status)

  /** Bytes needed to store every column followed by one terminator: the sum of
      `length + 1`. */
  function SizeHint(cols: seq<string>): (n: nat)
    ensures n >= |cols|
    ensures cols == [] <==> n == 0
  {
    if cols == [] then 0 else SizeHint(cols[..|cols| - 1]) + |cols[|cols| - 1]| + 1
  }

  /** Each column followed by `t`, all concatenated. */
  function Join(cols: seq<string>, t: char): (s: string)
  {
    if cols == [] then [] else cols[0] + [t] + Join(cols[1..], t)
  }

  /** One step of `Join`, with the separator grouped with what follows it. */
  lemma JoinCons(cols: seq<string>, t: char)
    requires cols != []
    ensures Join(cols, t) == cols[0] + ([t] + Join(cols[1..], t))
  {
  }

  /** The size hint is the length of the joined text. */
  lemma {:induction false} JoinLength(cols: seq<string>, t: char)
    ensures |Join(cols, t)| == SizeHint(cols)
  {
    if cols != [] {
      JoinLength(cols[1..], t);
      SizeHintCons(cols);
    }
  }

  lemma {:induction false} SizeHintCons(cols: seq<string>)
    requires cols != []
    ensures SizeHint(cols) == |cols[0]| + 1 + SizeHint(cols[1..])
  {
    if |cols| > 1 {
      var init := cols[..|cols| - 1];
      SizeHintCons(init);
      assert init[1..] == cols[1..][..|cols[1..]| - 1];
    }
  }

  lemma {:induction false} JoinAppend(xs: seq<string>, ys: seq<string>, t: char)
    ensures Join(xs + ys, t) == Join(xs, t) + Join(ys, t)
  {
    if xs != [] {
      assert (xs + ys)[0] == xs[0] && (xs + ys)[1..] == xs[1..] + ys;
      JoinAppend(xs[1..], ys, t);
    } else {
      assert xs + ys == ys;
    }
  }

  /** The joined text from the start of column `k` on is the join of the columns from
      `k` on. */
  lemma JoinSuffix(cols: seq<string>, k: nat, t: char)
    requires k <= |cols|
    ensures SizeHint(cols[..k]) <= |Join(cols, t)|
    ensures Join(cols, t)[SizeHint(cols[..k])..] == Join(cols[k..], t)
  {
    assert cols == cols[..k] + cols[k..];
    JoinAppend(cols[..k], cols[k..], t);
    JoinLength(cols[..k], t);
  }

  /** `strpbrk` with a one-character set: the first position of `c`. */
  function Find(s: string, c: char): (r: Option<nat>)
    ensures r.Some? ==> r.value < |s| && s[r.value] == c && c !in s[..r.value]
    ensures r.None? <==> c !in s
  {
    if s == [] then None
    else if s[0] == c then Some(0)
    else match Find(s[1..], c)
      case None => None
      case Some(i) => assert s[1..][..i] == s[1..i + 1]; Some(i + 1)
  }

  /** The columns `ParseLine` emits from a C string: delimiter-terminated segments,
      stopping when a segment would start with a line feed or when no delimiter is
      left. */
  function Fields(s: string, t: char): seq<string>
    decreases |s|
  {
    if s != [] && s[0] == '\n' then []
    else match Find(s, t)
      case None => []
      case Some(i) => [s[..i]] + Fields(s[i + 1..], t)
  }

  /** What follows the last consumed delimiter. */
  function Rest(s: string, t: char): string
    decreases |s|
  {
    if s != [] && s[0] == '\n' then s
    else match Find(s, t)
      case None => s
      case Some(i) => Rest(s[i + 1..], t)
  }

  /** The emitted columns never contain the delimiter. */
  lemma {:induction false} FieldsNoToken(s: string, t: char)
    ensures forall k :: 0 <= k < |Fields(s, t)| ==> t !in Fields(s, t)[k]
    decreases |s|
  {
    if (s != [] && s[0] == '\n') || Find(s, t) == None {
      FieldsStop(s, t);
    } else {
      var i := Find(s, t).value;
      FieldsStep(s, t, i);
      FieldsNoToken(s[i + 1..], t);
    }
  }

  /** Joined back with the delimiter, the columns give the input up to the last
      consumed delimiter; what remains is empty, starts with a line feed, or holds no
      further delimiter. */
  lemma {:induction false} FieldsSplit(s: string, t: char)
    ensures Join(Fields(s, t), t) + Rest(s, t) == s
    ensures var r := Rest(s, t); r == [] || r[0] == '\n' || t !in r
    decreases |s|
  {
    if (s != [] && s[0] == '\n') || Find(s, t) == None {
      FieldsStop(s, t);
    } else {
      var i := Find(s, t).value;
      var head := s[..i];
      var tail := s[i + 1..];
      FieldsStep(s, t, i);
      FieldsSplit(tail, t);
      var fs := Fields(tail, t);
      var r := Rest(tail, t);
      JoinStep(head, fs, t, r);
      Reassemble(s, i, t);
      calc {
        Join(Fields(s, t), t) + Rest(s, t);
        Join([head] + fs, t) + r;
        head + [t] + (Join(fs, t) + r);
        head + [t] + tail;
        s;
      }
    }
  }

  lemma Reassemble(s: string, i: nat, t: char)
    requires i < |s| && s[i] == t
    ensures s[..i] + [t] + s[i + 1..] == s
  {
  }

  lemma JoinStep(head: string, fs: seq<string>, t: char, r: string)
    ensures Join([head] + fs, t) + r == head + [t] + (Join(fs, t) + r)
  {
    var cols := [head] + fs;
    assert cols[0] == head && cols[1..] == fs;
  }

  /** Joining columns that hold no delimiter and do not start with a line feed, then
      parsing, gives the columns back (the text after the last delimiter is dropped). */
  lemma {:induction false} FieldsOfJoin(cols: seq<string>, t: char, rest: string)
    requires t != '\n'
    requires forall k :: 0 <= k < |cols| ==> t !in cols[k] && (cols[k] == [] || cols[k][0] != '\n')
    requires rest == [] || rest[0] == '\n' || t !in rest
    ensures Fields(Join(cols, t) + rest, t) == cols
    ensures Rest(Join(cols, t) + rest, t) == rest
  {
    if cols == [] {
      FieldsStop(rest, t);
    } else {
      var c := cols[0];
      var more := Join(cols[1..], t) + rest;
      JoinStep(c, cols[1..], t, rest);
      assert [c] + cols[1..] == cols;
      assert Join(cols, t) + rest == c + ([t] + more);
      FieldsOfSegment(c, t, more);
      FieldsOfJoin(cols[1..], t, rest);
    }
  }

  /** A delimiter-free segment that does not start with a line feed, then the
      delimiter: the splitter emits the segment and goes on with what follows. */
  lemma FieldsOfSegment(c: string, t: char, more: string)
    requires t != '\n' && t !in c && (c == [] || c[0] != '\n')
    ensures Fields(c + ([t] + more), t) == [c] + Fields(more, t)
    ensures Rest(c + ([t] + more), t) == Rest(more, t)
  {
    var s := c + ([t] + more);
    FindAfter(c, t, more);
    assert s[..|c|] == c;
    assert s[|c| + 1..] == more;
    assert s[0] != '\n' by { if c == [] { assert s[0] == t; } else { assert s[0] == c[0]; } }
    FieldsStep(s, t, |c|);
  }

  lemma {:induction false} FindAfter(c: string, t: char, more: string)
    requires t !in c
    ensures Find(c + ([t] + more), t) == Some(|c|)
  {
    if c != [] {
      assert (c + ([t] + more))[1..] == c[1..] + ([t] + more);
      FindAfter(c[1..], t, more);
    }
  }

  /** One step of the splitter: a segment ending at the first delimiter. */
  lemma FieldsStep(s: string, t: char, i: nat)
    requires !(s != [] && s[0] == '\n') && Find(s, t) == Some(i)
    ensures Fields(s, t) == [s[..i]] + Fields(s[i + 1..], t)
    ensures Rest(s, t) == Rest(s[i + 1..], t)
  {
  }

  /** The splitter stops: a leading line feed or no delimiter left. */
  lemma FieldsStop(s: string, t: char)
    requires (s != [] && s[0] == '\n') || Find(s, t) == None
    ensures Fields(s, t) == [] && Rest(s, t) == s
  {
  }

  /** The row `ParseLine` yields for a line. */
  function Parsed(line: string, t: char): Row {
    var cols := Fields(CStr(line), t);
    Row(cols, SizeHint(cols), if cols == [] then NoRowData else Successful)
  }

  /** `ColumnDelimiter<t>::ParseLine`. The line is read as a C string; every emitted
      column is the text up to the next delimiter; the size hint adds one byte per
      column; no column means `kNoRowData`. */
  method ParseLine(line: string, t: char) returns (row: Row)
    ensures row == Parsed(line, t)
  {
    var input := CStr(line);
    var data: seq<string> := [];
    var size: nat := 0;
    // the text from the read pointer on
    var ptr := input;
    while !(ptr != [] && ptr[0] == '\n') && Find(ptr, t).Some?
      invariant data + Fields(ptr, t) == Fields(input, t)
      invariant size == SizeHint(data)
      decreases |ptr|
    {
      var length := Find(ptr, t).value;
      var field := ptr[..length];
      ParseAdvance(data, ptr, t, length);
      data := data + [field];
      size := size + length + 1;
      ptr := ptr[length + 1..];
    }
    FieldsStop(ptr, t);
    assert data + [] == data;
    var status := Successful;
    if size < 1 || |data| < 1 {
      status := NoRowData;
    }
    row := Row(data, size, status);
  }

  /** One pass of the `ParseLine` loop: the segment up to the next delimiter moves
      from the unread text to the emitted columns. */
  lemma ParseAdvance(data: seq<string>, ptr: string, t: char, i: nat)
    requires !(ptr != [] && ptr[0] == '\n') && Find(ptr, t) == Some(i)
    ensures data + Fields(ptr, t) == (data + [ptr[..i]]) + Fields(ptr[i + 1..], t)
    ensures SizeHint(data + [ptr[..i]]) == SizeHint(data) + i + 1
  {
    FieldsStep(ptr, t, i);
    Regroup(data, ptr[..i], Fields(ptr[i + 1..], t));
  }

  lemma Regroup<T>(xs: seq<T>, x: T, ys: seq<T>)
    ensures (xs + [x]) + ys == xs + ([x] + ys)
    ensures (xs + [x])[..|xs|] == xs
  {
  }

  /** A column read from a C string holds no NUL. */
  lemma {:induction false} FieldsNoNul(s: string, t: char)
    requires NUL !in s
    ensures forall k :: 0 <= k < |Fields(s, t)| ==> NUL !in Fields(s, t)[k]
    decreases |s|
  {
    if (s != [] && s[0] == '\n') || Find(s, t) == None {
      FieldsStop(s, t);
    } else {
      var i := Find(s, t).value;
      var head := s[..i];
      var tail := s[i + 1..];
      assert s == head + [s[i]] + tail;
      assert NUL !in head && NUL !in tail;
      FieldsStep(s, t, i);
      FieldsNoNul(tail, t);
      var fs := Fields(s, t);
      forall k | 0 <= k < |fs|
        ensures NUL !in fs[k]
      {
        if k > 0 {
          assert fs[k] == Fields(tail, t)[k - 1];
        }
      }
    }
  }

  // ---------------------------------------------------------------- selection

  predicate Increasing(xs: seq<nat>) {
    forall i, j :: 0 <= i < j < |xs| ==> xs[i] < xs[j]
  }

  /** Indices below `n` that the selection names, in increasing order. */
  function Positions(sel: seq<nat>, n: nat): (p: seq<nat>)
    ensures Increasing(p)
    ensures forall j :: 0 <= j < |p| ==> p[j] < n
    ensures forall i :: i in p <==> i < n && i in sel
  {
    if n == 0 then []
    else if n - 1 in sel then Positions(sel, n - 1) + [n - 1]
    else Positions(sel, n - 1)
  }

  /** Columns among the first `n` whose index the selection names, in column order. */
  function Kept(cols: seq<string>, sel: seq<nat>, n: nat): (r: seq<string>)
    requires n <= |cols|
  {
    if n == 0 then []
    else if n - 1 in sel then Kept(cols, sel, n - 1) + [cols[n - 1]]
    else Kept(cols, sel, n - 1)
  }

  /** Columns among the first `n` whose index the selection does not name. */
  function Dropped(cols: seq<string>, sel: seq<nat>, n: nat): (r: seq<string>)
    requires n <= |cols|
  {
    if n == 0 then []
    else if n - 1 in sel then Dropped(cols, sel, n - 1)
    else Dropped(cols, sel, n - 1) + [cols[n - 1]]
  }

  function Pick(cols: seq<string>, sel: seq<nat>): seq<string> {
    Kept(cols, sel, |cols|)
  }

  /** The selected columns are exactly the columns at the named indices below the
      column count, in column order; indices past the end are ignored. */
  lemma {:induction false} KeptSpec(cols: seq<string>, sel: seq<nat>, n: nat)
    requires n <= |cols|
    ensures var p := Positions(sel, n);
            |Kept(cols, sel, n)| == |p| &&
            forall j :: 0 <= j < |p| ==> Kept(cols, sel, n)[j] == cols[p[j]]
  {
    if n > 0 {
      KeptSpec(cols, sel, n - 1);
    }
  }

  lemma PickSpec(cols: seq<string>, sel: seq<nat>)
    ensures var p := Positions(sel, |cols|);
            |Pick(cols, sel)| == |p| &&
            forall j :: 0 <= j < |p| ==> Pick(cols, sel)[j] == cols[p[j]]
  {
    KeptSpec(cols, sel, |cols|);
  }

  /** Two increasing sequences with the same elements are equal. */
  lemma {:induction false} IncreasingUnique(a: seq<nat>, b: seq<nat>)
    requires Increasing(a) && Increasing(b)
    requires forall x :: x in a <==> x in b
    ensures a == b
  {
    SameElementsEmpty(a, b);
    if a != [] {
      assert a[0] in b && b[0] in a;
      FirstIsLeast(a, b[0]);
      FirstIsLeast(b, a[0]);
      forall x
        ensures x in a[1..] <==> x in b[1..]
      {
        if x in a[1..] {
          InTail(a, x);
          TailIn(b, x);
        }
        if x in b[1..] {
          InTail(b, x);
          TailIn(a, x);
        }
      }
      IncreasingTail(a);
      IncreasingTail(b);
      IncreasingUnique(a[1..], b[1..]);
      assert a == [a[0]] + a[1..] && b == [b[0]] + b[1..];
    }
  }

  lemma SameElementsEmpty(a: seq<nat>, b: seq<nat>)
    requires forall x :: x in a <==> x in b
    ensures a == [] <==> b == []
  {
    if a != [] { assert a[0] in b; }
    if b != [] { assert b[0] in a; }
  }

  /** An element after the first is in the list and above the first. */
  lemma InTail(a: seq<nat>, x: nat)
    requires Increasing(a) && a != [] && x in a[1..]
    ensures x in a && a[0] < x
  {
    var k :| 0 <= k < |a[1..]| && a[1..][k] == x;
    assert a[k + 1] == x;
  }

  /** An element above the first is in the tail. */
  lemma TailIn(a: seq<nat>, x: nat)
    requires a != [] && x in a && a[0] < x
    ensures x in a[1..]
  {
    var k :| 0 <= k < |a| && a[k] == x;
    assert k != 0 && a[1..][k - 1] == x;
  }

  lemma IncreasingTail(a: seq<nat>)
    requires Increasing(a) && a != []
    ensures Increasing(a[1..])
  {
  }

  lemma FirstIsLeast(a: seq<nat>, x: nat)
    requires Increasing(a) && x in a
    ensures a[0] <= x
  {
    var k :| 0 <= k < |a| && a[k] == x;
    if k > 0 {
      assert a[0] < a[k];
    }
  }

  /** For an increasing selection whose indices all exist, the selected columns are the
      selection's columns in the selection's order. */
  lemma PickIncreasing(cols: seq<string>, sel: seq<nat>)
    requires Increasing(sel)
    requires forall j :: 0 <= j < |sel| ==> sel[j] < |cols|
    ensures |Pick(cols, sel)| == |sel|
    ensures forall j :: 0 <= j < |sel| ==> Pick(cols, sel)[j] == cols[sel[j]]
  {
    IncreasingUnique(Positions(sel, |cols|), sel);
    PickSpec(cols, sel);
  }

  /** Every selected column is one of the row's columns. */
  lemma PickSubset(cols: seq<string>, sel: seq<nat>)
    ensures forall c :: c in Pick(cols, sel) ==> c in cols
  {
    PickSpec(cols, sel);
    var p := Positions(sel, |cols|);
    forall c | c in Pick(cols, sel)
      ensures c in cols
    {
      var j :| 0 <= j < |Pick(cols, sel)| && Pick(cols, sel)[j] == c;
      assert c == cols[p[j]];
    }
  }

  /** `FilterColumnIndices`: a stable partition of the columns, selected ones first,
      counting the visited index as it goes; returns the partition point and the size
      of the selected columns. */
  method FilterColumnIndices(cols: seq<string>, sel: seq<nat>)
      returns (arranged: seq<string>, point: nat, size: nat)
    ensures point <= |arranged|
    ensures arranged[..point] == Pick(cols, sel)
    ensures arranged[point..] == Dropped(cols, sel, |cols|)
    ensures multiset(arranged) == multiset(cols)
    ensures size == SizeHint(Pick(cols, sel))
  {
    var kept: seq<string> := [];
    var rest: seq<string> := [];
    size := 0;
    var index: nat := 0;
    while index < |cols|
      invariant index <= |cols|
      invariant kept == Kept(cols, sel, index) && rest == Dropped(cols, sel, index)
      invariant size == SizeHint(kept)
    {
      var val := cols[index];
      if index in sel {
        assert (kept + [val])[..|kept|] == kept;
        kept := kept + [val];
        size := size + |val| + 1;
      } else {
        rest := rest + [val];
      }
      index := index + 1;
    }
    PartitionPermutes(cols, sel, |cols|);
    assert cols[..|cols|] == cols;
    arranged := kept + rest;
    point := |kept|;
    assert arranged[..point] == kept && arranged[point..] == rest;
  }

  /** The kept and the dropped columns together are the columns, rearranged. */
  lemma {:induction false} PartitionPermutes(cols: seq<string>, sel: seq<nat>, n: nat)
    requires n <= |cols|
    ensures multiset(Kept(cols, sel, n) + Dropped(cols, sel, n)) == multiset(cols[..n])
  {
    if n > 0 {
      PartitionPermutes(cols, sel, n - 1);
      var c := cols[n - 1];
      var k := Kept(cols, sel, n - 1);
      var d := Dropped(cols, sel, n - 1);
      PrefixSnoc(cols, n);
      if n - 1 in sel {
        assert Kept(cols, sel, n) + Dropped(cols, sel, n) == k + [c] + d;
        assert multiset(k + [c] + d) == multiset(k + d) + multiset{c};
      } else {
        assert Kept(cols, sel, n) + Dropped(cols, sel, n) == (k + d) + [c];
      }
    }
  }

  lemma PrefixSnoc<T>(s: seq<T>, n: nat)
    requires 0 < n <= |s|
    ensures s[..n] == s[..n - 1] + [s[n - 1]]
  {
  }

  /** `ColumnSelect<sel...>::Select`: erases everything after the partition point; the
      size becomes that of the kept columns. */
  method ColumnSelect(row: Row, sel: seq<nat>) returns (out: Row)
    ensures out.cols == Pick(row.cols, sel)
    ensures out.size == SizeHint(out.cols)
    ensures out.status == row.status
  {
    var arranged, point, size := FilterColumnIndices(row.cols, sel);
    out := Row(arranged[..point], size, row.status);
  }

  /** The MRCONSO selection `ColumnSelect<0, 11, 13>`. */
  const ConsoCols: seq<nat> := [0, 11, 13]

  /** On a full row it yields the CUI, the source abbreviation and the code. */
  lemma ConsoSelection(cols: seq<string>)
    requires |cols| >= 14
    ensures Pick(cols, ConsoCols) == [cols[0], cols[11], cols[13]]
  {
    PickIncreasing(cols, ConsoCols);
  }

  // ---------------------------------------------------------------- keys

  /** A stored key: uid, source abbreviation and target code. */
  datatype Key = Key(uid: string, src: string, trg: string)

  /** A lookup by components; an empty component is not compared (`RecordLookup`). */
  datatype Lookup = Lookup(uid: string, src: string, trg: string)

  /** Key against key: `uid ++ src` compared byte-wise, the target ignored. */
  predicate KeyLess(a: Key, b: Key) {
    LexLess(a.uid + a.src, b.uid + b.src)
  }

  /** The key's components that the lookup compares, concatenated. */
  function Projection(e: Key, lk: Lookup): string {
    (if lk.uid != [] then e.uid else []) +
    (if lk.src != [] then e.src else []) +
    (if lk.trg != [] then e.trg else [])
  }

  function LookupText(lk: Lookup): string {
    lk.uid + lk.src + lk.trg
  }

  /** Key before lookup. */
  predicate KeyBeforeLookup(e: Key, lk: Lookup) {
    LexLess(Projection(e, lk), LookupText(lk))
  }

  /** Lookup before key. */
  predicate LookupBeforeKey(lk: Lookup, e: Key) {
    LexLess(LookupText(lk), Projection(e, lk))
  }

  /** Key before a bare uid, and a bare uid before a key: only the uid is compared. */
  predicate KeyBeforeUid(e: Key, u: string) {
    LexLess(e.uid, u)
  }

  predicate UidBeforeKey(u: string, e: Key) {
    LexLess(u, e.uid)
  }

  /** The comparator treats a key and a lookup as equivalent exactly when the compared
      components spell the same text. */
  lemma LookupEquivalence(e: Key, lk: Lookup)
    ensures !KeyBeforeLookup(e, lk) && !LookupBeforeKey(lk, e)
            <==> Projection(e, lk) == LookupText(lk)
  {
    LexTotal(Projection(e, lk), LookupText(lk));
    LexIrreflexive(LookupText(lk));
  }

  /** Likewise a key and a bare uid are equivalent exactly when the uids are equal. */
  lemma UidEquivalence(e: Key, u: string)
    ensures !KeyBeforeUid(e, u) && !UidBeforeKey(u, e) <==> e.uid == u
  {
    LexTotal(e.uid, u);
    LexIrreflexive(u);
  }

  /** Key order is a strict order. */
  lemma KeyLessStrict(a: Key, b: Key, c: Key)
    ensures !KeyLess(a, a)
    ensures KeyLess(a, b) && KeyLess(b, c) ==> KeyLess(a, c)
  {
    LexIrreflexive(a.uid + a.src);
    if KeyLess(a, b) && KeyLess(b, c) {
      LexTransitive(a.uid + a.src, b.uid + b.src, c.uid + c.src);
    }
  }

  /** As written, key order can put a longer uid before a shorter one, so the entries
      of one uid are not contiguous and the uid-only comparisons that `equal_range`
      relies on disagree with it. */
  lemma KeyOrderSplitsUids()
    ensures var a := Key("AB", "A", "x");
            var b := Key("A", "C", "x");
            KeyLess(a, b) && LexLess(b.uid, a.uid) && UidBeforeKey(b.uid, a)
  {
    var a := Key("AB", "A", "x");
    var b := Key("A", "C", "x");
    assert (a.uid + a.src)[1..] == "BA" && (b.uid + b.src)[1..] == "C";
    assert LexLess("BA", "C");
    assert LexLess("A", "AB") by { assert "AB"[1..] == "B"; }
  }

  /** The evidently intended key order: by uid, then by source. */
  predicate KeyLessByUid(a: Key, b: Key) {
    LexLess(a.uid, b.uid) || (a.uid == b.uid && LexLess(a.src, b.src))
  }

  /** Under the intended order a uid's entries are contiguous: an earlier key never has
      a greater uid. */
  lemma KeyLessByUidGroups(a: Key, b: Key)
    requires KeyLessByUid(a, b)
    ensures !LexLess(b.uid, a.uid)
  {
    if LexLess(a.uid, b.uid) {
      LexAsymmetric(a.uid, b.uid);
    } else {
      LexIrreflexive(a.uid);
    }
  }

  /** Comparing `u ++ x` with `u ++ y` is comparing `x` with `y`. */
  lemma {:induction false} LexSharedPrefix(u: string, x: string, y: string)
    ensures LexLess(u + x, u + y) <==> LexLess(x, y)
  {
    if u != [] {
      var ux, uy := u + x, u + y;
      assert ux != [] && uy != [] && ux[0] == uy[0];
      assert ux[1..] == u[1..] + x && uy[1..] == u[1..] + y;
      assert LexLess(ux, uy) == LexLess(ux[1..], uy[1..]);
      LexSharedPrefix(u[1..], x, y);
    } else {
      assert u + x == x && u + y == y;
    }
  }

  /** The two orders agree whenever neither uid is a proper prefix of the other, as with
      fixed-width concept identifiers. */
  lemma KeyOrdersAgree(a: Key, b: Key)
    requires !ProperPrefix(a.uid, b.uid) && !ProperPrefix(b.uid, a.uid)
    ensures KeyLess(a, b) <==> KeyLessByUid(a, b)
  {
    if a.uid == b.uid {
      LexIrreflexive(a.uid);
      LexSharedPrefix(a.uid, a.src, b.src);
    } else {
      LexTotal(a.uid, b.uid);
      if LexLess(a.uid, b.uid) {
        LexLessAppend(a.uid, b.uid, a.src, b.src);
      } else {
        LexLessAppend(b.uid, a.uid, b.src, a.src);
        LexAsymmetric(b.uid + b.src, a.uid + a.src);
        LexAsymmetric(b.uid, a.uid);
      }
    }
  }
}
