/**
 * Pagination of a petition's ordered offense records into a primary page
 * (kept on the petition itself) and overflow groups (one per attachment).
 *
 * The order of `records` is the order produced by the record-retrieval
 * collaborator; pagination is purely positional in that order.
 */
module Paginator {

  /** Size of the primary page when the requested size is not positive. */
  const DefaultInitialPageSize: nat := 10

  /** Size of an overflow group when the requested size is not positive. */
  const DefaultAttachmentPageSize: nat := 20

  /** A page size actually in force: always positive. */
  type PageSize = n: nat | 0 < n witness 1

  /** Which page the record at a given position goes to. */
  datatype Page = PrimaryPage | AttachmentPage(index: nat)

  function Min(a: int, b: int): int { if a <= b then a else b }

  /** All groups, concatenated in order. */
  function Flatten<T>(groups: seq<seq<T>>): seq<T>
  {
    if groups == [] then [] else groups[0] + Flatten(groups[1..])
  }

  /**
   * Consecutive chunks of `s`: every chunk holds `size` elements except the
   * last, which holds what is left; there are ceil(|s| / size) of them.
   */
  function Chunks<T>(s: seq<T>, size: PageSize): (groups: seq<seq<T>>)
    ensures forall k :: 0 <= k < |groups| ==> 0 < |groups[k]| <= size
    ensures forall k :: 0 <= k < |groups| - 1 ==> |groups[k]| == size
    ensures groups == [] <==> s == []
    decreases |s|
  {
    if s == [] then []
    else if |s| <= size then [s]
    else [s[..size]] + Chunks(s[size..], size)
  }

  /**
   * The paginator for one petition: the petition's ordered offense records
   * and the two page sizes in force.
   */
  datatype OffenseRecordPaginator<T> = OffenseRecordPaginator(
    records: seq<T>,
    initialPageSize: PageSize,
    attachmentPageSize: PageSize)
  {
    /** The records kept on the petition itself: the first page. */
    function PetitionOffenseRecords(): (page: seq<T>)
      ensures |page| == Min(|records|, initialPageSize)
      ensures page == records[..|page|]
    {
      records[..Min(|records|, initialPageSize)]
    }

    /** The overflow groups, one per attachment, in attachment order. */
    function AttachmentOffenseRecords(): (groups: seq<seq<T>>)
      ensures |records| <= initialPageSize <==> groups == []
      ensures forall k :: 0 <= k < |groups| ==> 0 < |groups[k]| <= attachmentPageSize
      ensures forall k :: 0 <= k < |groups| - 1 ==> |groups[k]| == attachmentPageSize
    {
      Chunks(records[Min(|records|, initialPageSize)..], attachmentPageSize)
    }

    /** The page that the record at position `i` belongs to. */
    function Placement(i: nat): (page: Page)
      ensures page.PrimaryPage? <==> i < initialPageSize
      ensures page.AttachmentPage? ==>
        var start := initialPageSize + Offset(page.index, attachmentPageSize);
        start <= i < start + attachmentPageSize
    {
      if i < initialPageSize then PrimaryPage
      else
        DivBounds(i - initialPageSize, attachmentPageSize);
        AttachmentPage((i - initialPageSize) / attachmentPageSize)
    }
  }

  /**
   * Builds a paginator; a page size that is zero or negative falls back to
   * its default instead of being rejected.
   */
  function NewPaginator<T>(records: seq<T>, initialPageSize: int, attachmentPageSize: int)
    : (p: OffenseRecordPaginator<T>)
    ensures p.records == records
    ensures 0 < initialPageSize ==> p.initialPageSize == initialPageSize
    ensures initialPageSize <= 0 ==> p.initialPageSize == DefaultInitialPageSize
    ensures 0 < attachmentPageSize ==> p.attachmentPageSize == attachmentPageSize
    ensures attachmentPageSize <= 0 ==> p.attachmentPageSize == DefaultAttachmentPageSize
  {
    OffenseRecordPaginator(
      records,
      if 0 < initialPageSize then initialPageSize else DefaultInitialPageSize,
      if 0 < attachmentPageSize then attachmentPageSize else DefaultAttachmentPageSize)
  }

  /** The paginator a petition gets when no sizes are asked for. */
  function DefaultPaginator<T>(records: seq<T>): (p: OffenseRecordPaginator<T>)
    ensures p.records == records
    ensures p.initialPageSize == 10 && p.attachmentPageSize == 20
  {
    NewPaginator(records, DefaultInitialPageSize, DefaultAttachmentPageSize)
  }

  // ---------------------------------------------------------------------
  // Arithmetic helpers
  // ---------------------------------------------------------------------

  /**
   * Where group `k` starts, counted by repeated addition; equal to k * size
   * (OffsetIsProduct), but keeps the proofs about chunks linear.
   */
  function Offset(k: nat, size: PageSize): nat
  {
    if k == 0 then 0 else Offset(k - 1, size) + size
  }

  lemma {:induction false} OffsetIsProduct(k: nat, size: PageSize)
    ensures Offset(k, size) == k * size
  {
    if k > 0 {
      OffsetIsProduct(k - 1, size);
      assert (k - 1) * size + size == k * size;
    }
  }

  /** Later groups start later: group `a` ends no later than group `b` starts. */
  lemma {:induction false} OffsetMono(a: nat, b: nat, size: PageSize)
    requires a < b
    ensures Offset(a, size) + size <= Offset(b, size)
  {
    if b != a + 1 {
      OffsetMono(a, b - 1, size);
    }
  }

  /** Integer division is determined by the interval its dividend lies in. */
  lemma DivUnique(x: nat, size: PageSize, q: nat)
    requires Offset(q, size) <= x < Offset(q, size) + size
    ensures x / size == q
  {
    var d := x / size;
    OffsetIsProduct(d, size);
    assert Offset(d, size) + x % size == x;
    if d < q {
      OffsetMono(d, q, size);
    } else if q < d {
      OffsetMono(q, d, size);
    }
  }

  /** The quotient names the window of `size` that `x` lies in. */
  lemma DivBounds(x: nat, size: PageSize)
    ensures Offset(x / size, size) <= x < Offset(x / size, size) + size
    ensures x % size == x - Offset(x / size, size)
  {
    OffsetIsProduct(x / size, size);
  }

  // ---------------------------------------------------------------------
  // Properties of Chunks
  // ---------------------------------------------------------------------

  /** Concatenating the groups gives back `s`. */
  lemma {:induction false} ChunksFlatten<T>(s: seq<T>, size: PageSize)
    ensures Flatten(Chunks(s, size)) == s
    decreases |s|
  {
    if size < |s| {
      var groups := Chunks(s, size);
      ChunksFlatten(s[size..], size);
      assert groups[1..] == Chunks(s[size..], size);
      assert s[..size] + s[size..] == s;
    }
  }

  /** Group `k` is exactly the `k`-th window of `size` elements of `s`. */
  lemma {:induction false} ChunkAt<T>(s: seq<T>, size: PageSize, k: nat)
    requires k < |Chunks(s, size)|
    ensures Offset(k, size) < |s|
    ensures Chunks(s, size)[k] == s[Offset(k, size) .. Min(Offset(k, size) + size, |s|)]
    decreases |s|
  {
    if k > 0 {
      var rest := s[size..];
      ChunksTail(s, size, k);
      ChunkAt(rest, size, k - 1);
      ShiftWindow(s, size, Offset(k - 1, size), size);
    }
  }

  /** Dropping the first group of `s` shifts the later groups by one. */
  lemma ChunksTail<T>(s: seq<T>, size: PageSize, k: nat)
    requires 0 < k < |Chunks(s, size)|
    ensures size < |s|
    ensures k - 1 < |Chunks(s[size..], size)|
    ensures Chunks(s, size)[k] == Chunks(s[size..], size)[k - 1]
  {
  }

  /** A window of a suffix of `s` is the same window of `s`, shifted. */
  lemma SuffixWindow<T>(s: seq<T>, n: nat, lo: nat, hi: nat)
    requires n <= |s| && lo <= hi <= |s| - n
    ensures s[n..][lo..hi] == s[n + lo .. n + hi]
  {
  }

  /** A window of at most `len` elements of a suffix of `s` is the same window of `s`, shifted. */
  lemma ShiftWindow<T>(s: seq<T>, n: nat, lo: nat, len: nat)
    requires n + lo < |s|
    ensures s[n..][lo .. Min(lo + len, |s| - n)] == s[n + lo .. Min(n + lo + len, |s|)]
  {
    SuffixWindow(s, n, lo, Min(lo + len, |s| - n));
  }

  /**
   * There are ceil(|s| / size) groups: the full groups before the last one
   * leave at least one element, and all the groups cover `s`.
   */
  lemma {:induction false} ChunkCount<T>(s: seq<T>, size: PageSize)
    requires s != []
    ensures Offset(|Chunks(s, size)| - 1, size) < |s| <= Offset(|Chunks(s, size)|, size)
    decreases |s|
  {
    if size < |s| {
      ChunkCount(s[size..], size);
      assert |Chunks(s, size)| == |Chunks(s[size..], size)| + 1;
      var m := |Chunks(s[size..], size)|;
      assert Offset(m, size) == Offset(m - 1, size) + size;
    }
  }

  /** The last group holds the remainder: |s| minus the full groups before it. */
  lemma LastChunkHoldsRemainder<T>(s: seq<T>, size: PageSize)
    requires s != []
    ensures var groups := Chunks(s, size);
      |groups[|groups| - 1]| == |s| - Offset(|groups| - 1, size)
  {
    var groups := Chunks(s, size);
    ChunkAt(s, size, |groups| - 1);
    ChunkCount(s, size);
  }

  // ---------------------------------------------------------------------
  // Properties of the paginator
  // ---------------------------------------------------------------------

  /**
   * The pages reproduce the records: the petition's page followed by every
   * attachment's group, in order, is the original ordered sequence, with
   * nothing lost, duplicated or reordered.
   */
  lemma PartitionRoundTrip<T>(p: OffenseRecordPaginator<T>)
    ensures p.PetitionOffenseRecords() + Flatten(p.AttachmentOffenseRecords()) == p.records
  {
    var n := Min(|p.records|, p.initialPageSize);
    ChunksFlatten(p.records[n..], p.attachmentPageSize);
    assert p.records[..n] + p.records[n..] == p.records;
  }

  /**
   * Number of attachments: none when the primary page holds everything,
   * otherwise ceil((N - P) / A) of them, all full except the last, which
   * holds the remainder (N - P) - A * (count - 1).
   */
  lemma GroupCount<T>(p: OffenseRecordPaginator<T>)
    ensures var groups := p.AttachmentOffenseRecords();
      var extra := |p.records| - p.initialPageSize;
      (extra <= 0 ==> groups == []) &&
      (0 < extra ==>
        (|groups| - 1) * p.attachmentPageSize < extra <= |groups| * p.attachmentPageSize &&
        |groups[|groups| - 1]| == extra - (|groups| - 1) * p.attachmentPageSize)
  {
    var groups := p.AttachmentOffenseRecords();
    if p.initialPageSize < |p.records| {
      var rest := p.records[p.initialPageSize..];
      assert groups == Chunks(rest, p.attachmentPageSize);
      ChunkCount(rest, p.attachmentPageSize);
      LastChunkHoldsRemainder(rest, p.attachmentPageSize);
      OffsetIsProduct(|groups| - 1, p.attachmentPageSize);
      OffsetIsProduct(|groups|, p.attachmentPageSize);
    }
  }

  /** Group `k` is the window of at most A records starting at P + Offset(k, A), that is P + k * A. */
  lemma GroupAt<T>(p: OffenseRecordPaginator<T>, k: nat)
    requires k < |p.AttachmentOffenseRecords()|
    ensures var start := p.initialPageSize + Offset(k, p.attachmentPageSize);
      start < |p.records| &&
      p.AttachmentOffenseRecords()[k]
        == p.records[start .. Min(start + p.attachmentPageSize, |p.records|)]
  {
    var P, a := p.initialPageSize, p.attachmentPageSize;
    var rest := p.records[P..];
    assert p.AttachmentOffenseRecords() == Chunks(rest, a);
    ChunkAt(rest, a, k);
    ShiftWindow(p.records, P, Offset(k, a), a);
  }

  /**
   * The groups are contiguous: each one ends where the next begins, and
   * the last one ends at the last record.
   */
  lemma GroupEnd<T>(p: OffenseRecordPaginator<T>, k: nat)
    requires k < |p.AttachmentOffenseRecords()|
    ensures var groups := p.AttachmentOffenseRecords();
      var end := p.initialPageSize + Offset(k, p.attachmentPageSize) + |groups[k]|;
      end == if k + 1 < |groups| then p.initialPageSize + Offset(k + 1, p.attachmentPageSize)
             else |p.records|
  {
    var groups := p.AttachmentOffenseRecords();
    var rest := p.records[p.initialPageSize..];
    assert groups == Chunks(rest, p.attachmentPageSize);
    GroupAt(p, k);
    if k + 1 < |groups| {
      GroupAt(p, k + 1);
    } else {
      ChunkCount(rest, p.attachmentPageSize);
    }
  }

  /**
   * Page boundaries are purely positional: the record at position `i` is on
   * the petition when i < P, and otherwise it is element (i - P) % A of
   * group (i - P) / A.
   */
  lemma PlacementIsPositional<T>(p: OffenseRecordPaginator<T>, i: nat)
    requires i < |p.records|
    ensures p.Placement(i).PrimaryPage? ==>
      i < |p.PetitionOffenseRecords()| && p.PetitionOffenseRecords()[i] == p.records[i]
    ensures p.Placement(i).AttachmentPage? ==>
      var k := p.Placement(i).index;
      var j := (i - p.initialPageSize) % p.attachmentPageSize;
      k < |p.AttachmentOffenseRecords()| &&
      j < |p.AttachmentOffenseRecords()[k]| &&
      p.AttachmentOffenseRecords()[k][j] == p.records[i]
  {
    if p.initialPageSize <= i {
      var x := i - p.initialPageSize;
      var k := x / p.attachmentPageSize;
      GroupIndexInRange(p, x);
      GroupAt(p, k);
    }
  }

  /**
   * A position past the primary page lies inside the group its quotient
   * names: that group exists and starts at most one page size before it.
   */
  lemma GroupIndexInRange<T>(p: OffenseRecordPaginator<T>, x: nat)
    requires p.initialPageSize + x < |p.records|
    ensures var a := p.attachmentPageSize;
      x / a < |p.AttachmentOffenseRecords()| &&
      Offset(x / a, a) <= x < Offset(x / a, a) + a &&
      x % a == x - Offset(x / a, a)
  {
    var a := p.attachmentPageSize;
    var k := x / a;
    var groups := p.AttachmentOffenseRecords();
    var rest := p.records[p.initialPageSize..];
    assert groups == Chunks(rest, a);
    DivBounds(x, a);
    ChunkCount(rest, a);
    if |groups| < k {
      OffsetMono(|groups|, k, a);
    }
  }

  /**
   * The records placed on attachment page k are exactly the positions that
   * group k occupies: P + Offset(k) up to the end of the group.
   */
  lemma PlacementOfGroup<T>(p: OffenseRecordPaginator<T>, k: nat, i: nat)
    requires k < |p.AttachmentOffenseRecords()|
    requires i < |p.records|
    ensures var start := p.initialPageSize + Offset(k, p.attachmentPageSize);
      var end := start + |p.AttachmentOffenseRecords()[k]|;
      p.Placement(i) == AttachmentPage(k) <==> start <= i < end
  {
    var a := p.attachmentPageSize;
    var start := p.initialPageSize + Offset(k, a);
    GroupAt(p, k);
    if start <= i < start + |p.AttachmentOffenseRecords()[k]| {
      DivUnique(i - p.initialPageSize, a, k);
    } else if p.initialPageSize <= i {
      var x := i - p.initialPageSize;
      DivBounds(x, a);
    }
  }

  // ---------------------------------------------------------------------
  // The scenarios the paginator is specified by
  // ---------------------------------------------------------------------

  /** Sizes are kept when positive and fall back to 10 and 20 otherwise. */
  lemma SizeDefaulting<T>(records: seq<T>)
    ensures NewPaginator(records, 10, 10).initialPageSize == 10
    ensures NewPaginator(records, 0, 0).initialPageSize == 10
    ensures NewPaginator(records, -10, -10).initialPageSize == 10
    ensures NewPaginator(records, 10, 10).attachmentPageSize == 10
    ensures NewPaginator(records, 0, 0).attachmentPageSize == 20
    ensures NewPaginator(records, -10, -10).attachmentPageSize == 20
  {
  }

  /** Ten records fit on the petition: no attachment. */
  lemma TenRecords<T>(records: seq<T>)
    requires |records| == 10
    ensures |DefaultPaginator(records).PetitionOffenseRecords()| == 10
    ensures DefaultPaginator(records).AttachmentOffenseRecords() == []
  {
  }

  /** Eleven records: ten on the petition, one attachment holding one record. */
  lemma ElevenRecords<T>(records: seq<T>)
    requires |records| == 11
    ensures |DefaultPaginator(records).PetitionOffenseRecords()| == 10
    ensures |DefaultPaginator(records).AttachmentOffenseRecords()| == 1
    ensures DefaultPaginator(records).AttachmentOffenseRecords()[0] == [records[10]]
  {
    var p := DefaultPaginator(records);
    GroupAt(p, 0);
  }

  /** Thirty-five records: ten on the petition, then groups of 20 and 5. */
  lemma ThirtyFiveRecords<T>(records: seq<T>)
    requires |records| == 35
    ensures |DefaultPaginator(records).PetitionOffenseRecords()| == 10
    ensures |DefaultPaginator(records).AttachmentOffenseRecords()| == 2
    ensures DefaultPaginator(records).AttachmentOffenseRecords()[0] == records[10..30]
    ensures DefaultPaginator(records).AttachmentOffenseRecords()[1] == records[30..35]
  {
    var p := DefaultPaginator(records);
    GroupCount(p);
    GroupAt(p, 0);
    GroupAt(p, 1);
  }
}
