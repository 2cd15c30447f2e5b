/** Header fields, the static table, and the dynamic table with its size-bounded eviction
    (RFC 7541, sections 2.3 and 4). */
module HeaderTable {
  import opened Bytes

  datatype Header = Header(name: seq<byte>, value: seq<byte>) {
    function Size(): nat {
      32 + |name| + |value|
    }
  }

  function Text(name: string, value: string): Header {
    Header(Ascii(name), Ascii(value))
  }

  /** The static table of RFC 7541, Appendix A. Entry 0 is a placeholder that no index reaches. */
  const PSEUDO_HEADERS: seq<Header> := [
    Header([], []), Text(":authority", ""), Text(":method", "GET"), Text(":method", "POST"),
    Text(":path", "/"), Text(":path", "/index.html"), Text(":scheme", "http"), Text(":scheme", "https"),
    Text(":status", "200"), Text(":status", "204"), Text(":status", "206"), Text(":status", "304"),
    Text(":status", "400"), Text(":status", "404"), Text(":status", "500")
  ]

  const A_HEADERS: seq<Header> := [
    Text("accept-charset", ""), Text("accept-encoding", "gzip, deflate"), Text("accept-language", ""),
    Text("accept-ranges", ""), Text("accept", ""), Text("access-control-allow-origin", ""), Text("age", ""),
    Text("allow", ""), Text("authorization", "")
  ]

  const C_HEADERS: seq<Header> := [
    Text("cache-control", ""), Text("content-disposition", ""), Text("content-encoding", ""),
    Text("content-language", ""), Text("content-length", ""), Text("content-location", ""),
    Text("content-range", ""), Text("content-type", ""), Text("cookie", "")
  ]

  const D_TO_I_HEADERS: seq<Header> := [
    Text("date", ""), Text("etag", ""), Text("expect", ""), Text("expires", ""), Text("from", ""),
    Text("host", ""), Text("if-match", ""), Text("if-modified-since", ""), Text("if-none-match", ""),
    Text("if-range", ""), Text("if-unmodified-since", "")
  ]

  const L_TO_R_HEADERS: seq<Header> := [
    Text("last-modified", ""), Text("link", ""), Text("location", ""), Text("max-forwards", ""),
    Text("proxy-authenticate", ""), Text("proxy-authorization", ""), Text("range", ""), Text("referer", ""),
    Text("refresh", ""), Text("retry-after", "")
  ]

  const S_TO_W_HEADERS: seq<Header> := [
    Text("server", ""), Text("set-cookie", ""), Text("strict-transport-security", ""),
    Text("transfer-encoding", ""), Text("user-agent", ""), Text("vary", ""), Text("via", ""),
    Text("www-authenticate", "")
  ]

  function StaticTable(): (table: seq<Header>)
    ensures |table| == 62
  {
    PSEUDO_HEADERS + (A_HEADERS + (C_HEADERS + (D_TO_I_HEADERS + (L_TO_R_HEADERS + S_TO_W_HEADERS))))
  }

  const DEFAULT_MAX_SIZE := 4096

  // ---------------------------------------------------------------- the table as a value

  /** The dynamic table, newest entry first, and the size it is limited to. */
  datatype Table = Table(maxSize: nat, entries: seq<Header>)

  function TotalSize(entries: seq<Header>): nat {
    if |entries| == 0 then 0
    else TotalSize(entries[..|entries| - 1]) + entries[|entries| - 1].Size()
  }

  /** Drops oldest entries until the rest fits. */
  function Fit(entries: seq<Header>, maxSize: nat): (kept: seq<Header>)
    ensures kept <= entries
    ensures TotalSize(kept) <= maxSize
    ensures |kept| < |entries| ==> TotalSize(entries[..|kept| + 1]) > maxSize
  {
    if TotalSize(entries) <= maxSize then entries
    else
      var kept := Fit(entries[..|entries| - 1], maxSize);
      assert |kept| < |entries| - 1 ==> entries[..|kept| + 1] == entries[..|entries| - 1][..|kept| + 1];
      assert |kept| == |entries| - 1 ==> entries[..|kept| + 1] == entries;
      kept
  }

  function Insert(t: Table, h: Header): Table {
    t.(entries := Fit([h] + t.entries, t.maxSize))
  }

  function Resize(t: Table, maxSize: nat): Table {
    Table(maxSize, Fit(t.entries, maxSize))
  }

  ghost predicate WithinBounds(t: Table) {
    TotalSize(t.entries) <= t.maxSize
  }

  /** The whole address space: static entries from index 1 on, then dynamic ones. */
  function Indexed(t: Table): seq<Header> {
    StaticTable()[1..] + t.entries
  }

  function Lookup(t: Table, index: nat): Option<Header> {
    if 1 <= index <= |Indexed(t)| then Some(Indexed(t)[index - 1]) else None
  }

  // ---------------------------------------------------------------- searching

  /** The 1-based position of the first occurrence of `h`, or 0. */
  function FirstEqual(list: seq<Header>, h: Header): (r: nat)
    ensures r <= |list|
    ensures r > 0 ==> list[r - 1] == h && forall j :: 0 <= j < r - 1 ==> list[j] != h
    ensures r == 0 ==> forall j :: 0 <= j < |list| ==> list[j] != h
  {
    if |list| == 0 then 0
    else
      var r := FirstEqual(list[..|list| - 1], h);
      if r > 0 then r else if list[|list| - 1] == h then |list| else 0
  }

  /** The 1-based position of the first entry with the given name, or 0. */
  function FirstNamed(list: seq<Header>, name: seq<byte>): (r: nat)
    ensures r <= |list|
    ensures r > 0 ==> list[r - 1].name == name && forall j :: 0 <= j < r - 1 ==> list[j].name != name
    ensures r == 0 ==> forall j :: 0 <= j < |list| ==> list[j].name != name
  {
    if |list| == 0 then 0
    else
      var r := FirstNamed(list[..|list| - 1], name);
      if r > 0 then r else if list[|list| - 1].name == name then |list| else 0
  }

  /** A full match anywhere is preferred to a match of the name alone, and among equals the one
      with the lowest index. */
  function BestMatch(t: Table, h: Header): (r: nat)
    ensures r <= |Indexed(t)|
    ensures r > 0 ==> Lookup(t, r).Some? && Lookup(t, r).value.name == h.name
    ensures r == 0 ==> forall j :: Lookup(t, j).Some? ==> Lookup(t, j).value.name != h.name
    ensures Lookup(t, r) == Some(h) ==> forall j :: 0 <= j < r ==> Lookup(t, j) != Some(h)
    ensures Lookup(t, r) != Some(h) ==>
              && (forall j :: Lookup(t, j) != Some(h))
              && forall j :: 0 <= j < r && Lookup(t, j).Some? ==> Lookup(t, j).value.name != h.name
  {
    var r := FirstEqual(Indexed(t), h);
    if r > 0 then r else FirstNamed(Indexed(t), h.name)
  }

  // ---------------------------------------------------------------- the table as an object

  class DynamicTable {
    var size: nat
    var maxSize: nat
    var entries: seq<Header>

    /** Between calls the byte count is exact and within bounds. */
    ghost predicate Valid()
      reads this
    {
      size == TotalSize(entries) && size <= maxSize
    }

    ghost function View(): Table
      reads this
    {
      Table(maxSize, entries)
    }

    constructor ()
      ensures Valid() && View() == Table(DEFAULT_MAX_SIZE, [])
    {
      size, maxSize, entries := 0, DEFAULT_MAX_SIZE, [];
    }

    method Evict()
      requires size == TotalSize(entries)
      modifies this
      ensures Valid() && maxSize == old(maxSize)
      ensures entries == Fit(old(entries), maxSize)
    {
      while size > maxSize
        invariant size == TotalSize(entries) && maxSize == old(maxSize)
        invariant Fit(entries, maxSize) == Fit(old(entries), maxSize)
        decreases |entries|
      {
        var last := |entries| - 1;
        size := size - entries[last].Size();
        entries := entries[..last];
      }
    }

    method SetMaxSize(sz: nat)
      requires Valid()
      modifies this
      ensures Valid() && View() == Resize(old(View()), sz)
    {
      maxSize := sz;
      Evict();
    }

    method Add(h: Header)
      requires Valid()
      modifies this
      ensures Valid() && View() == Insert(old(View()), h)
    {
      TotalSizeOfFront(h, entries);
      entries := [h] + entries;
      size := size + h.Size();
      Evict();
    }

    method Reset()
      requires Valid()
      modifies this
      ensures Valid() && View() == Table(DEFAULT_MAX_SIZE, [])
    {
      maxSize := 0;
      Evict();
      TotalSizeZero(entries);
      maxSize := DEFAULT_MAX_SIZE;
    }

    /** `None` stands for the out-of-range exception. */
    function At(index: nat): (r: Option<Header>)
      reads this
      ensures r == Lookup(View(), index)
    {
      if index < 1 then None
      else if index < 62 then Some(StaticTable()[index])
      else if index - 62 < |entries| then Some(entries[index - 62])
      else None
    }

    method FindBestMatch(h: Header) returns (index: nat)
      requires Valid()
      ensures index == BestMatch(View(), h)
    {
      hide StaticTable;
      var s := StaticTable();
      ghost var all := Indexed(View());
      var i := 1;
      while i < |s|
        invariant 1 <= i <= |s|
        invariant forall j :: 0 <= j < i - 1 ==> all[j] != h
      {
        assert all[i - 1] == s[i];
        if h == s[i] {
          return i;
        }
        i := i + 1;
      }
      i := 0;
      while i < |entries|
        invariant 0 <= i <= |entries|
        invariant forall j :: 0 <= j < |s| - 1 + i ==> all[j] != h
      {
        assert all[|s| - 1 + i] == entries[i];
        if h == entries[i] {
          return |s| + i;
        }
        i := i + 1;
      }
      assert FirstEqual(all, h) == 0;
      index := FindName(h.name);
    }

    /** The search by name alone; it is also the second half of the search for a header. */
    method FindName(name: seq<byte>) returns (index: nat)
      requires Valid()
      ensures index == FirstNamed(Indexed(View()), name)
    {
      hide StaticTable;
      var s := StaticTable();
      ghost var all := Indexed(View());
      var i := 1;
      while i < |s|
        invariant 1 <= i <= |s|
        invariant forall j :: 0 <= j < i - 1 ==> all[j].name != name
      {
        assert all[i - 1] == s[i];
        if name == s[i].name {
          return i;
        }
        i := i + 1;
      }
      i := 0;
      while i < |entries|
        invariant 0 <= i <= |entries|
        invariant forall j :: 0 <= j < |s| - 1 + i ==> all[j].name != name
      {
        assert all[|s| - 1 + i] == entries[i];
        if name == entries[i].name {
          return |s| + i;
        }
        i := i + 1;
      }
      index := 0;
    }
  }

  lemma {:induction false} TotalSizeOfFront(h: Header, entries: seq<Header>)
    ensures TotalSize([h] + entries) == h.Size() + TotalSize(entries)
  {
    if |entries| == 0 {
      assert [h] + entries == [h];
      assert TotalSize([h]) == TotalSize([]) + h.Size();
    } else {
      var init := entries[..|entries| - 1];
      TotalSizeOfFront(h, init);
      assert ([h] + entries)[..|entries|] == [h] + init;
    }
  }

  lemma TotalSizeZero(entries: seq<Header>)
    requires TotalSize(entries) == 0
    ensures entries == []
  {
  }

  // ---------------------------------------------------------------- eviction over whole runs

  datatype TableOp = Inserted(h: Header) | Resized(maxSize: nat)

  function Apply(t: Table, op: TableOp): Table {
    match op
    case Inserted(h) => Insert(t, h)
    case Resized(n) => Resize(t, n)
  }

  function Run(t: Table, ops: seq<TableOp>): Table {
    if |ops| == 0 then t else Apply(Run(t, ops[..|ops| - 1]), ops[|ops| - 1])
  }

  /** Every header ever inserted, newest first. */
  function History(ops: seq<TableOp>): seq<Header> {
    if |ops| == 0 then []
    else
      var past := History(ops[..|ops| - 1]);
      match ops[|ops| - 1]
      case Inserted(h) => [h] + past
      case Resized(_) => past
  }

  /** `kept` is as much of the newest part of `history` as fits. */
  ghost predicate LongestFit(kept: seq<Header>, history: seq<Header>, maxSize: nat) {
    && kept <= history
    && TotalSize(kept) <= maxSize
    && forall n :: |kept| < n <= |history| ==> TotalSize(history[..n]) > maxSize
  }

  lemma {:induction false} TotalSizeMonotone(history: seq<Header>, m: nat, n: nat)
    requires m <= n <= |history|
    ensures TotalSize(history[..m]) <= TotalSize(history[..n])
  {
    if m < n {
      TotalSizeMonotone(history, m, n - 1);
      assert history[..n][..n - 1] == history[..n - 1];
    }
  }

  lemma FitIsLongest(entries: seq<Header>, maxSize: nat)
    ensures LongestFit(Fit(entries, maxSize), entries, maxSize)
  {
    var kept := Fit(entries, maxSize);
    forall n | |kept| < n <= |entries|
      ensures TotalSize(entries[..n]) > maxSize
    {
      TotalSizeMonotone(entries, |kept| + 1, n);
    }
  }

  /** What had been dropped before an insertion would not have fitted after it either. */
  lemma LongestFitAfterInsert(h: Header, kept: seq<Header>, history: seq<Header>, maxSize: nat)
    requires LongestFit(kept, history, maxSize)
    ensures LongestFit(Fit([h] + kept, maxSize), [h] + history, maxSize)
  {
    var before, after := [h] + kept, [h] + history;
    var now := Fit(before, maxSize);
    FitIsLongest(before, maxSize);
    assert before == after[..|before|];
    forall n | |now| < n <= |after|
      ensures TotalSize(after[..n]) > maxSize
    {
      if n <= |before| {
        assert after[..n] == before[..n];
      } else {
        assert after[..n] == [h] + history[..n - 1];
        TotalSizeOfFront(h, history[..n - 1]);
      }
    }
  }

  /** With the limit left alone, the table always holds the longest newest-first stretch of
      everything inserted that fits the limit. */
  lemma {:induction false} ConstantLimitRun(maxSize: nat, ops: seq<TableOp>)
    requires forall op <- ops :: op.Inserted?
    ensures LongestFit(Run(Table(maxSize, []), ops).entries, History(ops), maxSize)
    ensures Run(Table(maxSize, []), ops).maxSize == maxSize
  {
    if |ops| > 0 {
      var init, last := ops[..|ops| - 1], ops[|ops| - 1];
      ConstantLimitRun(maxSize, init);
      assert last in ops;
      LongestFitAfterInsert(last.h, Run(Table(maxSize, []), init).entries, History(init), maxSize);
    }
  }

  lemma LookupDynamic(t: Table, i: nat)
    requires i >= 62
    ensures Lookup(t, i) == if i - 62 < |t.entries| then Some(t.entries[i - 62]) else None
  {
    hide StaticTable;
  }

  /** Whatever the sequence of insertions and limit changes, the table is a prefix of the
      insertion history within its current limit, and index 62 + k is the k-th newest entry. */
  lemma {:induction false} AnyRun(maxSize: nat, ops: seq<TableOp>)
    ensures var t := Run(Table(maxSize, []), ops);
            && WithinBounds(t)
            && t.entries <= History(ops)
            && forall i | i >= 62 :: Lookup(t, i)
                 == if i - 62 < |t.entries| then Some(History(ops)[i - 62]) else None
  {
    hide Lookup;
    var t := Run(Table(maxSize, []), ops);
    if |ops| > 0 {
      AnyRun(maxSize, ops[..|ops| - 1]);
    }
    assert t.entries <= History(ops);
    forall i | i >= 62
      ensures Lookup(t, i) == if i - 62 < |t.entries| then Some(History(ops)[i - 62]) else None
    {
      LookupDynamic(t, i);
    }
  }
}
