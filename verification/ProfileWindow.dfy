/**
 Profile buffers written row by row (osp_profile_buffer_write, src/codec/serialize.c:1915-1958) and the
 entry window of a GET on them (src/server/server.c:849-878): the window applied while streaming selects the
 same rows as the filter applied in place to the value tree.
 */
module ProfileWindow {
  import opened Octets
  import opened Lengths
  import opened Values
  import opened ValueWrite
  import opened Streaming

  // ── The window ─────────────────────────────────────────────────────────────

  /** Entries count from 1; a bound of 0 is no bound. */
  predicate InWindow(entry: nat, from: u32, upto: u32) {
    (from == 0 || entry >= from) && (upto == 0 || entry <= upto)
  }

  /** The elements whose entry numbers lie in the window, in order. */
  function Select<T>(s: seq<T>, from: u32, upto: u32): (r: seq<T>)
    ensures |r| <= |s|
  {
    if s == [] then []
    else
      var n := |s| - 1;
      Select(s[..n], from, upto) + if InWindow(n + 1, from, upto) then [s[n]] else []
  }

  lemma SelectNext<T>(s: seq<T>, i: nat, from: u32, upto: u32)
    requires i < |s|
    ensures Select(s[..i + 1], from, upto) ==
            if InWindow(i + 1, from, upto) then Select(s[..i], from, upto) + [s[i]] else Select(s[..i], from, upto)
  {
    assert s[..i + 1][..i] == s[..i];
  }

  /** The bounds of the window in a list of n elements, and the stretch between them. */
  function First(n: nat, from: u32): nat { Min(if from == 0 then 0 else from - 1, n) }
  function Last(n: nat, upto: u32): nat { if upto == 0 then n else Min(upto, n) }
  function Stretch<T>(s: seq<T>, lo: nat, hi: nat): seq<T>
    requires hi <= |s|
  {
    if lo <= hi then s[lo..hi] else []
  }

  lemma StretchNext<T>(s: seq<T>, n: nat, from: u32, upto: u32)
    requires |s| == n + 1
    ensures Stretch(s, First(n + 1, from), Last(n + 1, upto)) ==
            Stretch(s[..n], First(n, from), Last(n, upto)) + if InWindow(n + 1, from, upto) then [s[n]] else []
  {
    var lo, hi := First(n, from), Last(n, upto);
    if InWindow(n + 1, from, upto) {
      OneLonger(s, lo, n);
    } else if lo <= hi {
      assert s[..n][lo..hi] == s[lo..hi];
    }
  }

  lemma OneLonger<T>(s: seq<T>, lo: nat, n: nat)
    requires lo <= n < |s|
    ensures s[lo..n + 1] == s[..n][lo..n] + [s[n]]
  {
    assert s[..n][lo..n] == s[lo..n];
  }

  /** The selected elements are one stretch, from entry `from` to entry `upto`. */
  lemma {:induction false} SelectMeaning<T>(s: seq<T>, from: u32, upto: u32)
    ensures Select(s, from, upto) == Stretch(s, First(|s|, from), Last(|s|, upto))
  {
    hide First, Last, Stretch, InWindow;
    if s == [] {
      NoStretch(s, from, upto);
    } else {
      SelectMeaning(s[..|s| - 1], from, upto);
      StretchNext(s, |s| - 1, from, upto);
    }
  }

  lemma NoStretch<T>(s: seq<T>, from: u32, upto: u32)
    requires s == []
    ensures Stretch(s, First(|s|, from), Last(|s|, upto)) == []
  {}

  /** The server's filter on an array value: compaction in place. */
  method FilterInPlace<T>(items: array<T>, count: nat, from: u32, upto: u32) returns (filtered: nat)
    requires count <= items.Length && count < 256
    modifies items
    ensures filtered <= count && items[..filtered] == Select(old(items[..count]), from, upto)
  {
    ghost var all := items[..count];
    filtered := 0;
    for i := 0 to count
      invariant filtered <= i
      invariant items[..filtered] == Select(all[..i], from, upto)
      invariant forall k :: i <= k < count ==> items[k] == all[k]
    {
      var entry := i + 1;
      SelectNext(all, i, from, upto);
      if entry >= from && (upto == 0 || entry <= upto) {
        ghost var done := items[..filtered];
        if filtered != i { items[filtered] := items[i]; }
        filtered := filtered + 1;
        assert items[..filtered] == done + [all[i]];
      }
    }
    assert all[..count] == all;
  }

  // ── The buffer as a tree ───────────────────────────────────────────────────

  function Row(cells: seq<Value>): Value { List(false, Clip(cells, MAX_CELLS)) }

  function RowTrees(rows: seq<seq<Value>>): (r: seq<Value>)
    ensures |r| == |rows|
  {
    if rows == [] then [] else [Row(rows[0])] + RowTrees(rows[1..])
  }

  /** The array of structures a view of the buffer is equivalent to. */
  function BufferTree(rows: seq<seq<Value>>, from: u32, upto: u32): Value {
    List(true, RowTrees(Select(Clip(rows, MAX_ROWS), from, upto)))
  }

  lemma {:induction false} RowTreesAppend(a: seq<seq<Value>>, b: seq<seq<Value>>)
    ensures RowTrees(a + b) == RowTrees(a) + RowTrees(b)
  {
    hide Row;
    if a == [] {
      assert a + b == b;
    } else {
      RowTreesAppend(a[1..], b);
      assert (a + b)[0] == a[0] && (a + b)[1..] == a[1..] + b;
      ConcatAssoc([Row(a[0])], RowTrees(a[1..]), RowTrees(b));
    }
  }

  /** Selecting rows and then building the tree is filtering the tree of all rows. */
  lemma {:induction false} WindowsAgree(rows: seq<seq<Value>>, from: u32, upto: u32)
    ensures RowTrees(Select(rows, from, upto)) == Select(RowTrees(rows), from, upto)
  {
    hide Row, InWindow;
    if rows != [] {
      var n := |rows| - 1;
      WindowsAgree(rows[..n], from, upto);
      RowTreesAppend(rows[..n], [rows[n]]);
      assert rows[..n] + [rows[n]] == rows;
      assert RowTrees([rows[n]]) == [Row(rows[n])] + RowTrees([]);
      assert RowTrees(rows)[..n] == RowTrees(rows[..n]) && RowTrees(rows)[n] == Row(rows[n]);
      RowTreesAppend(Select(rows[..n], from, upto), if InWindow(n + 1, from, upto) then [rows[n]] else []);
    }
  }

  // ── Writing ────────────────────────────────────────────────────────────────

  /** The indices below n. */
  function Up(n: nat): (r: seq<nat>)
    ensures |r| == n && forall i :: 0 <= i < n ==> r[i] == i
  {
    if n == 0 then [] else Up(n - 1) + [n - 1]
  }

  /** First pass: the indices of the rows in the window. */
  method SelectRows(n: nat, from: u32, upto: u32) returns (idx: array<nat>, out: nat)
    requires n <= MAX_ROWS
    ensures out <= n <= idx.Length && idx[..out] == Select<nat>(Up(n), from, upto)
  {
    idx := new nat[MAX_ROWS];
    out := 0;
    for i := 0 to n
      invariant out <= i && idx[..out] == Select<nat>(Up(n)[..i], from, upto)
    {
      SelectNext(Up(n), i, from, upto);
      if from != 0 && i + 1 < from { continue; }
      if upto != 0 && i + 1 > upto { continue; }
      ghost var done := idx[..out];
      idx[out] := i;
      out := out + 1;
      assert idx[..out] == done + [i];
    }
    assert Up(n)[..n] == Up(n);
  }

  ghost function Picked(rows: seq<seq<Value>>, idx: seq<nat>): (r: seq<seq<Value>>)
    requires Below(idx, |rows|)
    ensures |r| == |idx| && forall k :: 0 <= k < |idx| ==> r[k] == rows[idx[k]]
  {
    if idx == [] then [] else Picked(rows, idx[..|idx| - 1]) + [rows[idx[|idx| - 1]]]
  }

  /** Indices of rows before i. */
  ghost predicate Below(idx: seq<nat>, i: nat) { forall k :: 0 <= k < |idx| ==> idx[k] < i }

  lemma {:induction false} PickedIsSelected(rows: seq<seq<Value>>, i: nat, from: u32, upto: u32)
    requires i <= |rows|
    ensures var idx: seq<nat> := Select<nat>(Up(i), from, upto);
            Below(idx, i) && Below(idx, |rows|) && Picked(rows, idx) == Select(rows[..i], from, upto)
  {
    hide Select, Up, Picked, InWindow, Below;
    if i == 0 {
      NothingPicked(rows, from, upto);
    } else {
      PickedIsSelected(rows, i - 1, from, upto);
      var low: seq<nat> := Select<nat>(Up(i - 1), from, upto);
      UpNext(i - 1, from, upto);
      SelectNext(rows, i - 1, from, upto);
      BelowNext(low, i - 1, |rows|);
      if InWindow(i, from, upto) { PickedNext(rows, low, i - 1); }
    }
  }

  lemma BelowNext(low: seq<nat>, i: nat, n: nat)
    requires Below(low, i) && i < n
    ensures Below(low, i + 1) && Below(low, n) && Below(low + [i], i + 1) && Below(low + [i], n)
  {}

  lemma NothingPicked(rows: seq<seq<Value>>, from: u32, upto: u32)
    ensures Select<nat>(Up(0), from, upto) == [] && Picked(rows, []) == [] && Select(rows[..0], from, upto) == []
    ensures Below([], 0) && Below([], |rows|)
  {}

  lemma PickedNext(rows: seq<seq<Value>>, low: seq<nat>, j: nat)
    requires j < |rows| && Below(low, |rows|) && Below(low + [j], |rows|)
    ensures Picked(rows, low + [j]) == Picked(rows, low) + [rows[j]]
  {
    assert (low + [j])[..|low|] == low;
  }

  lemma UpNext(i: nat, from: u32, upto: u32)
    ensures Select<nat>(Up(i + 1), from, upto) ==
            if InWindow(i + 1, from, upto) then Select<nat>(Up(i), from, upto) + [i] else Select<nat>(Up(i), from, upto)
  {
    assert Up(i + 1)[..i] == Up(i);
    SelectNext<nat>(Up(i + 1), i, from, upto);
    assert Up(i + 1)[..i + 1] == Up(i + 1);
  }

  /** One row: a structure of its cells. */
  method WriteRow(buf: Buf, cells: seq<Value>) returns (ok: bool)
    requires buf.Valid() && forall j :: 0 <= j < |cells| ==> Representable(cells[j])
    modifies buf`wr, buf`written, buf.mem
    ensures buf.Valid() && Wrote(old(buf.written), buf.written, buf.mem.Length, Enc(Row(cells)), ok)
  {
    hide LenBytes, EncAll, Representable;
    ok := buf.WriteU8(STRUCTURE);
    if !ok { return; }
    ghost var a := buf.written;
    var kept := Clip(cells, MAX_CELLS);
    ok := WriteItems(buf, kept);
    WroteThen(old(buf.written), a, buf.written, buf.mem.Length, [STRUCTURE], ListLen(kept) + EncAll(kept), ok);
  }

  method WriteRows(buf: Buf, rows: seq<seq<Value>>, idx: array<nat>, out: nat) returns (ok: bool)
    requires buf.Valid() && out <= idx.Length && forall k :: 0 <= k < out ==> idx[k] < |rows|
    requires forall i, j :: 0 <= i < |rows| && 0 <= j < |rows[i]| ==> Representable(rows[i][j])
    modifies buf`wr, buf`written, buf.mem
    ensures buf.Valid() && Wrote(old(buf.written), buf.written, buf.mem.Length,
            EncAll(RowTrees(Picked(rows, idx[..out]))), ok)
  {
    hide Enc, Representable, Picked, Row;
    ghost var start, cap := buf.written, buf.mem.Length;
    ghost var sel := Picked(rows, idx[..out]);
    ghost var done: seq<byte> := [];
    for k := 0 to out
      invariant buf.Valid() && Wrote(start, buf.written, cap, done, true)
      invariant done + EncAll(RowTrees(sel[k..])) == EncAll(RowTrees(sel))
    {
      ghost var mid, rest, x := buf.written, RowTrees(sel[k + 1..]), Enc(Row(sel[k]));
      assert sel[k] == rows[idx[k]];
      assert sel[k..][0] == sel[k] && sel[k..][1..] == sel[k + 1..];
      assert RowTrees(sel[k..])[1..] == rest;
      ok := WriteRow(buf, rows[idx[k]]);
      WroteThen(start, mid, buf.written, cap, done, x, ok);
      ConcatAssoc(done, x, EncAll(rest));
      done := done + x;
      if !ok { return; }
    }
    assert sel[out..] == [] && done + [] == done;
    ok := true;
  }

  /** osp_profile_buffer_write: exactly the octets of the windowed array of structures. */
  method WriteBuffer(buf: Buf, rows: seq<seq<Value>>, from: u32, upto: u32) returns (ok: bool)
    requires buf.Valid() && forall i, j :: 0 <= i < |rows| && 0 <= j < |rows[i]| ==> Representable(rows[i][j])
    modifies buf`wr, buf`written, buf.mem
    ensures buf.Valid() && Wrote(old(buf.written), buf.written, buf.mem.Length, Enc(BufferTree(rows, from, upto)), ok)
  {
    hide Enc, Head, Representable, RowTrees, Select, Picked;
    ghost var before, cap := buf.written, buf.mem.Length;
    var kept := Clip(rows, MAX_ROWS);
    var idx, out := SelectRows(|kept|, from, upto);
    PickedIsSelected(kept, |kept|, from, upto);
    assert kept[..|kept|] == kept;
    ghost var sel := Select(kept, from, upto);
    EncList(true, RowTrees(sel));
    forall k | 0 <= k < out ensures idx[k] < |kept| { assert idx[k] == idx[..out][k]; }
    ok := Begin(buf, true, out);
    if !ok { return; }
    ghost var a := buf.written;
    ok := WriteRows(buf, kept, idx, out);
    WroteThen(before, a, buf.written, cap, Head(true, out), EncAll(RowTrees(sel)), ok);
  }

  // ── References inside osp_value_write ──────────────────────────────────────

  const OBJECT_LIST_REF: byte := 0xF0
  const BUFFER_REF: byte := 0xF1

  /** The placeholder tag goes in and comes out again. */
  method Placeholder(buf: Buf, tag: byte) returns (ok: bool)
    requires buf.Valid()
    modifies buf`wr, buf`written, buf.mem
    ensures buf.Valid() && buf.written == old(buf.written) && (ok <==> |old(buf.written)| < buf.mem.Length)
  {
    ok := buf.WriteU8(tag);
    if ok {
      buf.wr := buf.wr - 1;
      buf.written := buf.written[..buf.wr];
    }
  }

  /** osp_value_write of an object-list reference. */
  method WriteObjectListRef(buf: Buf, list: seq<Element>) returns (ok: bool)
    requires buf.Valid() && forall i :: 0 <= i < |list| ==> |list[i].name| == 6
    modifies buf`wr, buf`written, buf.mem
    ensures buf.Valid() && Wrote(old(buf.written), buf.written, buf.mem.Length, Enc(ObjectListTree(list)), ok)
  {
    hide Enc, ObjectListTree;
    ok := Placeholder(buf, OBJECT_LIST_REF);
    if ok { ok := WriteObjectList(buf, list); }
  }

  /** osp_value_write of a profile-buffer reference. */
  method WriteBufferRef(buf: Buf, rows: seq<seq<Value>>, from: u32, upto: u32) returns (ok: bool)
    requires buf.Valid() && forall i, j :: 0 <= i < |rows| && 0 <= j < |rows[i]| ==> Representable(rows[i][j])
    modifies buf`wr, buf`written, buf.mem
    ensures buf.Valid() && Wrote(old(buf.written), buf.written, buf.mem.Length, Enc(BufferTree(rows, from, upto)), ok)
  {
    hide Enc, BufferTree, Representable;
    ok := Placeholder(buf, BUFFER_REF);
    if ok { ok := WriteBuffer(buf, rows, from, upto); }
  }
}
