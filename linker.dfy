/**
 * Linking a petition's offense records to the petition and its attachments,
 * following the pages computed by the paginator: the primary page stays on
 * the petition, and every overflow group becomes a new attachment, numbered
 * in order, that owns the records of that group.
 */
module Linker {
  import opened Paginator
  import opened Sequences

  /** What an offense record is linked to. */
  datatype Owner = Petition | Attachment(number: nat)

  /**
   * The owner that a page is linked to, when the attachments created before
   * this link number `base`: group k becomes attachment base + k + 1.
   */
  function PageOwner(page: Page, base: nat): Owner
  {
    match page
    case PrimaryPage => Petition
    case AttachmentPage(k) => Attachment(base + k + 1)
  }

  /** The records of `records`, in their order, that `owner` links to `o`. */
  function OwnedBy<T(==)>(records: seq<T>, owner: map<T, Owner>, o: Owner): (owned: seq<T>)
    ensures forall r :: r in owned ==> r in records && r in owner && owner[r] == o
    ensures forall r :: r in records && r in owner && owner[r] == o ==> r in owned
    ensures |owned| <= |records|
  {
    if records == [] then []
    else
      var head := if records[0] in owner && owner[records[0]] == o then [records[0]] else [];
      head + OwnedBy(records[1..], owner, o)
  }

  /**
   * When the records linked to `o` are exactly the positions lo .. hi - 1,
   * they are read back as that window of the records, in order.
   */
  lemma {:induction false} OwnedWindow<T>(
    records: seq<T>, owner: map<T, Owner>, o: Owner, lo: nat, hi: nat)
    requires lo <= hi <= |records|
    requires forall i :: 0 <= i < |records| ==>
      (records[i] in owner && owner[records[i]] == o <==> lo <= i < hi)
    ensures OwnedBy(records, owner, o) == records[lo..hi]
    decreases |records|
  {
    if records != [] {
      var tail := records[1..];
      var head := if records[0] in owner && owner[records[0]] == o then [records[0]] else [];
      assert OwnedBy(records, owner, o) == head + OwnedBy(tail, owner, o);
      var lo', hi' := if lo == 0 then 0 else lo - 1, if hi == 0 then 0 else hi - 1;
      forall i | 0 <= i < |tail|
        ensures tail[i] in owner && owner[tail[i]] == o <==> lo' <= i < hi'
      {
        assert tail[i] == records[i + 1];
      }
      OwnedWindow(tail, owner, o, lo', hi');
      if lo == 0 && 0 < hi {
        SuffixWindow(records, 1, 0, hi - 1);
        ConsWindow(records, hi);
      } else if 0 < lo {
        SuffixWindow(records, 1, lo - 1, hi - 1);
      }
    }
  }

  /** A non-empty prefix is its first element followed by the rest of the prefix. */
  lemma ConsWindow<T>(s: seq<T>, hi: nat)
    requires 0 < hi <= |s|
    ensures [s[0]] + s[1..hi] == s[0..hi]
  {
  }

  /**
   * Once every record is linked to the owner of the page its position falls
   * on, the petition reads back exactly its primary page, attachment
   * base + k + 1 reads back exactly group k, and no other attachment number
   * owns any of the records.
   */
  lemma LinkedPages<T>(p: OffenseRecordPaginator<T>, owner: map<T, Owner>, base: nat)
    requires LinkedByPlacement(p, owner, base)
    ensures OwnedBy(p.records, owner, Petition) == p.PetitionOffenseRecords()
    ensures forall k :: 0 <= k < |p.AttachmentOffenseRecords()| ==>
      OwnedBy(p.records, owner, Attachment(base + k + 1)) == p.AttachmentOffenseRecords()[k]
    ensures forall n: nat :: n <= base || base + |p.AttachmentOffenseRecords()| < n ==>
      OwnedBy(p.records, owner, Attachment(n)) == []
  {
    OwnedWindow(p.records, owner, Petition, 0, |p.PetitionOffenseRecords()|);
    forall k | 0 <= k < |p.AttachmentOffenseRecords()|
      ensures OwnedBy(p.records, owner, Attachment(base + k + 1)) == p.AttachmentOffenseRecords()[k]
    {
      GroupReadsBack(p, owner, base, k);
    }
    forall n: nat | n <= base || base + |p.AttachmentOffenseRecords()| < n
      ensures OwnedBy(p.records, owner, Attachment(n)) == []
    {
      OtherAttachmentEmpty(p, owner, base, n);
    }
  }

  /**
   * When linking has put the primary page and every group on its owner,
   * every record sits on the owner of its page, and the petition and each
   * new attachment read back their page.
   */
  lemma LinkedReadsBack<T>(p: OffenseRecordPaginator<T>, owner: map<T, Owner>, base: nat)
    requires LinkedGroups(p, owner, base, |p.AttachmentOffenseRecords()|)
    ensures LinkedByPlacement(p, owner, base)
    ensures PagesReadBack(p, owner, base)
  {
    GroupsToPlacement(p, owner, base);
    LinkedPages(p, owner, base);
  }

  /**
   * The petition reads back exactly the primary page, and attachment
   * base + k + 1 exactly group k.
   */
  ghost predicate PagesReadBack<T>(p: OffenseRecordPaginator<T>, owner: map<T, Owner>, base: nat)
  {
    OwnedBy(p.records, owner, Petition) == p.PetitionOffenseRecords() &&
    forall k :: 0 <= k < |p.AttachmentOffenseRecords()| ==>
      OwnedBy(p.records, owner, Attachment(base + k + 1)) == p.AttachmentOffenseRecords()[k]
  }

  /**
   * Nothing is lost, repeated or reordered by linking: what the petition
   * reads back, followed by what each new attachment reads back in
   * attachment order, is the petition's records.
   */
  lemma LinkedRoundTrip<T>(p: OffenseRecordPaginator<T>, owner: map<T, Owner>, base: nat)
    requires PagesReadBack(p, owner, base)
    ensures var readBack := seq(|p.AttachmentOffenseRecords()|,
                                k requires 0 <= k => OwnedBy(p.records, owner, Attachment(base + k + 1)));
      OwnedBy(p.records, owner, Petition) + Flatten(readBack) == p.records
  {
    var groups := p.AttachmentOffenseRecords();
    var readBack := seq(|groups|, k requires 0 <= k => OwnedBy(p.records, owner, Attachment(base + k + 1)));
    assert readBack == groups;
    PartitionRoundTrip(p);
  }

  /** Every record is linked to the owner of the page its position falls on. */
  ghost predicate LinkedByPlacement<T>(p: OffenseRecordPaginator<T>, owner: map<T, Owner>, base: nat)
  {
    forall i :: 0 <= i < |p.records| ==>
      p.records[i] in owner && owner[p.records[i]] == PageOwner(p.Placement(i), base)
  }

  /** Under LinkedByPlacement, attachment base + k + 1 reads back group k. */
  lemma GroupReadsBack<T>(p: OffenseRecordPaginator<T>, owner: map<T, Owner>, base: nat, k: nat)
    requires LinkedByPlacement(p, owner, base)
    requires k < |p.AttachmentOffenseRecords()|
    ensures OwnedBy(p.records, owner, Attachment(base + k + 1)) == p.AttachmentOffenseRecords()[k]
  {
    var group := p.AttachmentOffenseRecords()[k];
    var start := p.initialPageSize + Offset(k, p.attachmentPageSize);
    forall i | 0 <= i < |p.records|
      ensures p.records[i] in owner && owner[p.records[i]] == Attachment(base + k + 1)
              <==> start <= i < start + |group|
    {
      PlacementOfGroup(p, k, i);
    }
    GroupAt(p, k);
    assert group == p.records[start .. start + |group|];
    OwnedWindow(p.records, owner, Attachment(base + k + 1), start, start + |group|);
  }

  /** Under LinkedByPlacement, an attachment number no group was given owns nothing. */
  lemma OtherAttachmentEmpty<T>(p: OffenseRecordPaginator<T>, owner: map<T, Owner>, base: nat, n: nat)
    requires LinkedByPlacement(p, owner, base)
    requires n <= base || base + |p.AttachmentOffenseRecords()| < n
    ensures OwnedBy(p.records, owner, Attachment(n)) == []
  {
    forall i | 0 <= i < |p.records|
      ensures owner[p.records[i]] != Attachment(n)
    {
      PlacementIsPositional(p, i);
    }
    OwnedWindow(p.records, owner, Attachment(n), 0, 0);
  }

  /**
   * The links of one petition: which owner each offense record is linked
   * to, and how many attachments the petition has.
   */
  class PetitionLinks<T(==)> {
    var owner: map<T, Owner>
    var attachmentCount: nat

    /** A petition with no links and no attachments yet. */
    constructor ()
      ensures owner == map[] && attachmentCount == 0
    {
      owner := map[];
      attachmentCount := 0;
    }

    /** The records linked to the petition itself, in record order. */
    function OffenseRecords(records: seq<T>): (linked: seq<T>)
      reads this
      ensures forall r :: r in linked ==> r in records && r in owner && owner[r] == Petition
      ensures forall r :: r in records && r in owner && owner[r] == Petition ==> r in linked
    {
      OwnedBy(records, owner, Petition)
    }

    /** The records linked to attachment `number`, in record order. */
    function AttachmentRecords(records: seq<T>, number: nat): (linked: seq<T>)
      reads this
      ensures forall r :: r in linked ==> r in records && r in owner && owner[r] == Attachment(number)
      ensures forall r :: r in records && r in owner && owner[r] == Attachment(number) ==> r in linked
    {
      OwnedBy(records, owner, Attachment(number))
    }

    /** Links every record of `group` to `o`; every other link is kept. */
    method LinkRecords(group: seq<T>, o: Owner)
      modifies this
      ensures attachmentCount == old(attachmentCount)
      ensures forall r :: r in group ==> r in owner && owner[r] == o
      ensures Kept(old(owner), owner, group)
    {
      for j := 0 to |group|
        invariant attachmentCount == old(attachmentCount)
        invariant forall r :: r in group[..j] ==> r in owner && owner[r] == o
        invariant forall r :: r in old(owner) && r !in group[..j] ==> r in owner && owner[r] == old(owner)[r]
        invariant forall r :: r in owner ==> r in old(owner) || r in group[..j]
      {
        assert group[..j + 1] == group[..j] + [group[j]];
        owner := owner[group[j] := o];
      }
      assert group[..|group|] == group;
    }

    /**
     * Links the records of the primary page to the petition and, for each
     * overflow group in order, creates the next attachment and links the
     * records of that group to it.
     */
    method Link(p: OffenseRecordPaginator<T>)
      requires Distinct(p.records)
      modifies this
      ensures attachmentCount == old(attachmentCount) + |p.AttachmentOffenseRecords()|
      ensures LinkedByPlacement(p, owner, old(attachmentCount))
      ensures Kept(old(owner), owner, p.records)
      ensures PagesReadBack(p, owner, old(attachmentCount))
    {
      ghost var orig, base := owner, attachmentCount;
      var primary := p.PetitionOffenseRecords();
      LinkRecords(primary, Petition);
      PrimaryLinked(p, orig, owner, base);
      LinkAttachments(p, orig);
      LinkedReadsBack(p, owner, base);
    }

    /**
     * The loop of Link over the overflow groups, once the primary page is
     * linked: group g becomes attachment number old(attachmentCount) + g + 1.
     */
    method LinkAttachments(p: OffenseRecordPaginator<T>, ghost orig: map<T, Owner>)
      requires Distinct(p.records)
      requires LinkedGroups(p, owner, attachmentCount, 0)
      requires Kept(orig, owner, p.records)
      modifies this
      ensures attachmentCount == old(attachmentCount) + |p.AttachmentOffenseRecords()|
      ensures LinkedGroups(p, owner, old(attachmentCount), |p.AttachmentOffenseRecords()|)
      ensures Kept(orig, owner, p.records)
    {
      ghost var base := attachmentCount;
      var groups := p.AttachmentOffenseRecords();
      for g := 0 to |groups|
        invariant attachmentCount == base + g
        invariant LinkedGroups(p, owner, base, g)
        invariant Kept(orig, owner, p.records)
      {
        attachmentCount := attachmentCount + 1;
        ghost var before := owner;
        LinkRecords(groups[g], Attachment(attachmentCount));
        GroupLinked(p, g, base, before, owner);
        GroupWithinRecords(p, g);
        KeptTwice(orig, before, owner, p.records, groups[g]);
      }
    }
  }

  /** Records outside `covered` keep their link from `orig`, and no new record is linked. */
  ghost predicate Kept<T>(orig: map<T, Owner>, now: map<T, Owner>, covered: seq<T>)
  {
    (forall r :: r in orig && r !in covered ==> r in now && now[r] == orig[r]) &&
    (forall r :: r in now ==> r in orig || r in covered)
  }

  /**
   * The primary page is linked to the petition and the first `g` groups to
   * attachments base + 1 .. base + g respectively.
   */
  ghost predicate LinkedGroups<T>(p: OffenseRecordPaginator<T>, owner: map<T, Owner>, base: nat, g: nat)
    requires g <= |p.AttachmentOffenseRecords()|
  {
    var primary := p.PetitionOffenseRecords();
    var groups := p.AttachmentOffenseRecords();
    (forall i :: 0 <= i < |primary| ==> primary[i] in owner && owner[primary[i]] == Petition) &&
    (forall k, j :: 0 <= k < g && 0 <= j < |groups[k]| ==>
       groups[k][j] in owner && owner[groups[k][j]] == Attachment(base + k + 1))
  }

  /**
   * One step of linking: once group `g` is linked to attachment
   * base + g + 1, and nothing else changed, the first g + 1 groups are linked.
   */
  lemma GroupLinked<T>(p: OffenseRecordPaginator<T>, g: nat, base: nat,
                       before: map<T, Owner>, after: map<T, Owner>)
    requires Distinct(p.records)
    requires g < |p.AttachmentOffenseRecords()|
    requires LinkedGroups(p, before, base, g)
    requires var group := p.AttachmentOffenseRecords()[g];
      (forall r :: r in group ==> r in after && after[r] == Attachment(base + g + 1)) &&
      Kept(before, after, group)
    ensures LinkedGroups(p, after, base, g + 1)
  {
    var primary := p.PetitionOffenseRecords();
    var groups := p.AttachmentOffenseRecords();
    forall i | 0 <= i < |primary|
      ensures primary[i] in after && after[primary[i]] == Petition
    {
      PrimaryApart(p, i, g);
    }
    forall k, j | 0 <= k < g + 1 && 0 <= j < |groups[k]|
      ensures groups[k][j] in after && after[groups[k][j]] == Attachment(base + k + 1)
    {
      if k < g {
        GroupsApart(p, k, j, g);
      } else {
        assert groups[k][j] in groups[g];
      }
    }
  }

  /** Element j of group k is the record at position initialPageSize + Offset(k) + j. */
  lemma GroupElement<T>(p: OffenseRecordPaginator<T>, k: nat, j: nat)
    requires k < |p.AttachmentOffenseRecords()| && j < |p.AttachmentOffenseRecords()[k]|
    ensures var at := p.initialPageSize + Offset(k, p.attachmentPageSize) + j;
      j < p.attachmentPageSize && at < |p.records| &&
      p.AttachmentOffenseRecords()[k][j] == p.records[at]
  {
    GroupAt(p, k);
  }

  /** In records without repeats, no record of the primary page is in a group. */
  lemma PrimaryApart<T>(p: OffenseRecordPaginator<T>, i: nat, g: nat)
    requires Distinct(p.records)
    requires i < |p.PetitionOffenseRecords()| && g < |p.AttachmentOffenseRecords()|
    ensures p.PetitionOffenseRecords()[i] !in p.AttachmentOffenseRecords()[g]
  {
    var group := p.AttachmentOffenseRecords()[g];
    forall j | 0 <= j < |group|
      ensures group[j] != p.records[i]
    {
      GroupElement(p, g, j);
    }
  }

  /** In records without repeats, no record of group k is in a later group l. */
  lemma GroupsApart<T>(p: OffenseRecordPaginator<T>, k: nat, j: nat, l: nat)
    requires Distinct(p.records)
    requires k < l < |p.AttachmentOffenseRecords()| && j < |p.AttachmentOffenseRecords()[k]|
    ensures p.AttachmentOffenseRecords()[k][j] !in p.AttachmentOffenseRecords()[l]
  {
    var a := p.attachmentPageSize;
    var group := p.AttachmentOffenseRecords()[l];
    GroupElement(p, k, j);
    OffsetMono(k, l, a);
    forall j2 | 0 <= j2 < |group|
      ensures group[j2] != p.AttachmentOffenseRecords()[k][j]
    {
      GroupElement(p, l, j2);
    }
  }

  /** Linking the primary page to the petition starts the loop over the groups. */
  lemma PrimaryLinked<T>(p: OffenseRecordPaginator<T>, orig: map<T, Owner>, now: map<T, Owner>, base: nat)
    requires var primary := p.PetitionOffenseRecords();
      (forall r :: r in primary ==> r in now && now[r] == Petition) &&
      Kept(orig, now, primary)
    ensures LinkedGroups(p, now, base, 0)
    ensures Kept(orig, now, p.records)
  {
    var primary := p.PetitionOffenseRecords();
    forall r | r in primary
      ensures r in p.records
    {
      var i :| 0 <= i < |primary| && primary[i] == r;
      assert p.records[i] == r;
    }
    forall i | 0 <= i < |primary|
      ensures primary[i] in now && now[primary[i]] == Petition
    {
      assert primary[i] in primary;
    }
  }

  /** Every record of group `g` is one of the records. */
  lemma GroupWithinRecords<T>(p: OffenseRecordPaginator<T>, g: nat)
    requires g < |p.AttachmentOffenseRecords()|
    ensures forall r :: r in p.AttachmentOffenseRecords()[g] ==> r in p.records
  {
    GroupAt(p, g);
  }

  /** Links kept in two steps, each over part of `covered`, are kept overall. */
  lemma KeptTwice<T>(orig: map<T, Owner>, mid: map<T, Owner>, now: map<T, Owner>,
                     covered: seq<T>, part: seq<T>)
    requires Kept(orig, mid, covered) && Kept(mid, now, part)
    requires forall r :: r in part ==> r in covered
    ensures Kept(orig, now, covered)
  {
  }

  /**
   * Linking group by group puts every record on the owner of the page its
   * position falls on.
   */
  lemma GroupsToPlacement<T>(p: OffenseRecordPaginator<T>, owner: map<T, Owner>, base: nat)
    requires LinkedGroups(p, owner, base, |p.AttachmentOffenseRecords()|)
    ensures LinkedByPlacement(p, owner, base)
  {
    forall i | 0 <= i < |p.records|
      ensures p.records[i] in owner && owner[p.records[i]] == PageOwner(p.Placement(i), base)
    {
      PlacementIsPositional(p, i);
    }
  }

  // ---------------------------------------------------------------------
  // The scenarios linking is specified by (default sizes 10 and 20)
  // ---------------------------------------------------------------------

  /** Ten records: all on the petition, no attachment. */
  method LinkTenRecords<T(==)>(records: seq<T>) returns (links: PetitionLinks<T>)
    requires |records| == 10 && Distinct(records)
    ensures |links.OffenseRecords(records)| == 10
    ensures links.attachmentCount == 0
  {
    links := new PetitionLinks();
    links.Link(DefaultPaginator(records));
    TenRecords(records);
  }

  /** Eleven records: one attachment, holding one record. */
  method LinkElevenRecords<T(==)>(records: seq<T>) returns (links: PetitionLinks<T>)
    requires |records| == 11 && Distinct(records)
    ensures links.attachmentCount == 1
    ensures |links.AttachmentRecords(records, 1)| == 1
  {
    links := new PetitionLinks();
    links.Link(DefaultPaginator(records));
    ElevenRecords(records);
  }

  /** Thirty-five records: attachment 1 holds 20 records, attachment 2 holds 5. */
  method LinkThirtyFiveRecords<T(==)>(records: seq<T>) returns (links: PetitionLinks<T>)
    requires |records| == 35 && Distinct(records)
    ensures links.attachmentCount == 2
    ensures |links.AttachmentRecords(records, 1)| == 20
    ensures |links.AttachmentRecords(records, 2)| == 5
    ensures links.OffenseRecords(records) + links.AttachmentRecords(records, 1)
      + links.AttachmentRecords(records, 2) == records
  {
    links := new PetitionLinks();
    links.Link(DefaultPaginator(records));
    ThirtyFiveReadBack(records, links.owner);
    assert links.OffenseRecords(records) == OwnedBy(records, links.owner, Petition);
    assert links.AttachmentRecords(records, 1) == OwnedBy(records, links.owner, Attachment(1));
    assert links.AttachmentRecords(records, 2) == OwnedBy(records, links.owner, Attachment(2));
  }

  /** What the petition and its two attachments read back after linking 35 records. */
  lemma ThirtyFiveReadBack<T>(records: seq<T>, owner: map<T, Owner>)
    requires |records| == 35 && PagesReadBack(DefaultPaginator(records), owner, 0)
    ensures |DefaultPaginator(records).AttachmentOffenseRecords()| == 2
    ensures |OwnedBy(records, owner, Attachment(1))| == 20
    ensures |OwnedBy(records, owner, Attachment(2))| == 5
    ensures OwnedBy(records, owner, Petition) + OwnedBy(records, owner, Attachment(1))
      + OwnedBy(records, owner, Attachment(2)) == records
  {
    ThirtyFiveRecords(records);
    TwoGroupsRoundTrip(DefaultPaginator(records), owner, 0);
  }

  /** LinkedRoundTrip written out for a petition with two attachments. */
  lemma TwoGroupsRoundTrip<T>(p: OffenseRecordPaginator<T>, owner: map<T, Owner>, base: nat)
    requires PagesReadBack(p, owner, base) && |p.AttachmentOffenseRecords()| == 2
    ensures OwnedBy(p.records, owner, Petition) + OwnedBy(p.records, owner, Attachment(base + 1))
      + OwnedBy(p.records, owner, Attachment(base + 2)) == p.records
  {
    var groups := p.AttachmentOffenseRecords();
    var petition := OwnedBy(p.records, owner, Petition);
    var first := OwnedBy(p.records, owner, Attachment(base + 1));
    var second := OwnedBy(p.records, owner, Attachment(base + 2));
    assert first == groups[0] && second == groups[1];
    PartitionRoundTrip(p);
    FlattenTwo(groups);
    assert petition + first + second == petition + (first + second);
  }

  /** Flattening two groups concatenates them. */
  lemma FlattenTwo<T>(groups: seq<seq<T>>)
    requires |groups| == 2
    ensures Flatten(groups) == groups[0] + groups[1]
  {
    var rest := groups[1..];
    assert rest[1..] == [] && rest[0] == groups[1];
    assert Flatten(rest) == groups[1] + Flatten(rest[1..]);
  }

  /**
   * The boundary is positional: the 10th record stays on the petition and
   * the 11th goes to the first attachment, whatever they have in common.
   */
  method LinkAcrossBoundary<T(==)>(records: seq<T>) returns (links: PetitionLinks<T>)
    requires |records| == 11 && Distinct(records)
    ensures records[9] in links.OffenseRecords(records)
    ensures records[9] !in links.AttachmentRecords(records, 1)
    ensures records[10] in links.AttachmentRecords(records, 1)
    ensures records[10] !in links.OffenseRecords(records)
  {
    links := new PetitionLinks();
    links.Link(DefaultPaginator(records));
    ElevenRecords(records);
  }
}
