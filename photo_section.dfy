/** The photo section: the tag list offered for filtering, and the photos
    shown for the selected tag. */
module PhotoSection {
  import opened Wrappers
  import opened Seqs
  import MilestoneTree

  /** The selector entry meaning "no filter". */
  const AllTag: string := "All"

  datatype Photo = Photo(
    imageUrl: string,
    topic: string,
    description: string,
    uploadDate: string,
    taggedMilestoneIds: seq<int>)

  predicate NoDuplicates<T(==)>(s: seq<T>) {
    forall i, j :: 0 <= i < j < |s| ==> s[i] != s[j]
  }

  /** `photos.map((p) => p.topic)`. */
  function Topics(photos: seq<Photo>): (r: seq<string>)
    ensures |r| == |photos|
    ensures forall i :: 0 <= i < |photos| ==> r[i] == photos[i].topic
  {
    seq(|photos|, i requires 0 <= i < |photos| => photos[i].topic)
  }

  /** `Array.from(new Set(xs))`: each element kept at its first occurrence, as
      a set remembers insertion order. */
  function Distinct(xs: seq<string>): (r: seq<string>)
    ensures NoDuplicates(r)
    ensures forall x :: x in r <==> x in xs
  {
    if xs == [] then []
    else
      var init, x := xs[..|xs| - 1], xs[|xs| - 1];
      assert xs == init + [x];
      var r := Distinct(init);
      if x in r then r else r + [x]
  }

  /** The index at which `x` first occurs in `xs`. */
  function FirstIndex(xs: seq<string>, x: string): (i: nat)
    requires x in xs
    ensures i < |xs| && xs[i] == x
    ensures forall j :: 0 <= j < i ==> xs[j] != x
  {
    if xs[0] == x then 0 else 1 + FirstIndex(xs[1..], x)
  }

  lemma FirstIndexInPrefix(xs: seq<string>, n: nat, x: string)
    requires n <= |xs| && x in xs[..n]
    ensures FirstIndex(xs, x) == FirstIndex(xs[..n], x)
  {
    var i, k := FirstIndex(xs, x), FirstIndex(xs[..n], x);
    assert xs[k] == x;
    assert xs[..n][i] == x by {
      if i >= k {
        assert i <= k;
      }
    }
  }

  /** The elements of `r`, all drawn from `xs`, come in the order of their first
      occurrences in `xs`. */
  predicate InFirstOccurrenceOrder(xs: seq<string>, r: seq<string>)
    requires forall x :: x in r ==> x in xs
  {
    forall i, j :: 0 <= i < j < |r| ==> FirstIndex(xs, r[i]) < FirstIndex(xs, r[j])
  }

  /** The distinct elements come in the order of their first occurrences. */
  lemma {:induction false} DistinctKeepsFirstOccurrenceOrder(xs: seq<string>)
    ensures InFirstOccurrenceOrder(xs, Distinct(xs))
    decreases |xs|
  {
    if xs != [] {
      var init, x := xs[..|xs| - 1], xs[|xs| - 1];
      var r0, r := Distinct(init), Distinct(xs);
      DistinctKeepsFirstOccurrenceOrder(init);
      forall y | y in r0
        ensures FirstIndex(xs, y) == FirstIndex(init, y) < |init|
      {
        FirstIndexInPrefix(xs, |init|, y);
      }
      if x !in r0 {
        assert FirstIndex(xs, x) == |init| by {
          assert x !in init;
          assert forall j :: 0 <= j < |init| ==> xs[j] == init[j];
        }
      }
      assert r == if x in r0 then r0 else r0 + [x];
      forall i, j | 0 <= i < j < |r|
        ensures FirstIndex(xs, r[i]) < FirstIndex(xs, r[j])
      {
        assert r[i] == r0[i] && r0[i] in r0;
        if j < |r0| {
          assert r[j] == r0[j] && r0[j] in r0;
          assert InFirstOccurrenceOrder(init, r0);
          assert FirstIndex(init, r0[i]) < FirstIndex(init, r0[j]);
        } else {
          assert r[j] == x && FirstIndex(xs, x) == |init|;
        }
      }
    }
  }

  /** The tags offered in the selector: every topic once, no other string. */
  function UniqueTags(photos: seq<Photo>): (r: seq<string>)
    ensures NoDuplicates(r)
    ensures forall t :: t in r <==> exists p :: p in photos && p.topic == t
  {
    var topics := Topics(photos);
    assert forall t :: t in topics <==> exists p :: p in photos && p.topic == t by {
      forall t ensures t in topics <==> exists p :: p in photos && p.topic == t {
        if t in topics {
          var i :| 0 <= i < |topics| && topics[i] == t;
          assert photos[i] in photos;
        }
        if exists p :: p in photos && p.topic == t {
          var p :| p in photos && p.topic == t;
          var i :| 0 <= i < |photos| && photos[i] == p;
          assert topics[i] == t;
        }
      }
    }
    Distinct(topics)
  }

  /** The tags are ordered by the first photo carrying each. */
  lemma UniqueTagsOrder(photos: seq<Photo>)
    ensures InFirstOccurrenceOrder(Topics(photos), UniqueTags(photos))
  {
    assert UniqueTags(photos) == Distinct(Topics(photos));
    DistinctKeepsFirstOccurrenceOrder(Topics(photos));
  }

  /** The photos shown for `selectedTag`; a missing list counts as empty. */
  function FilterPhotos(photos: Option<seq<Photo>>, selectedTag: string): (r: seq<Photo>)
    ensures selectedTag == AllTag ==> r == photos.GetOr([])
    ensures selectedTag != AllTag ==>
      IsSubsequence(r, photos.GetOr([])) &&
      (forall p :: p in r ==> p.topic == selectedTag) &&
      (forall p: Photo :: p.topic == selectedTag ==> multiset(r)[p] == multiset(photos.GetOr([]))[p])
  {
    var all := photos.GetOr([]);
    if selectedTag == AllTag then all else Filter(all, (p: Photo) => p.topic == selectedTag)
  }

  /** Every tag the selector offers shows at least one photo. */
  lemma OfferedTagShowsPhotos(photos: seq<Photo>, tag: string)
    requires tag in UniqueTags(photos)
    ensures |FilterPhotos(Some(photos), tag)| > 0
  {
    var p :| p in photos && p.topic == tag;
    if tag != AllTag {
      assert multiset(FilterPhotos(Some(photos), tag))[p] == multiset(photos)[p] > 0;
    }
  }

  /** A duplicate-free sequence has as many elements as its set. */
  lemma {:induction false} NoDuplicatesCardinality(s: seq<string>)
    requires NoDuplicates(s)
    ensures |set x | x in s| == |s|
    decreases |s|
  {
    if s != [] {
      var init, x := s[..|s| - 1], s[|s| - 1];
      assert s == init + [x];
      NoDuplicatesCardinality(init);
      assert (set y | y in s) == (set y | y in init) + {x};
    }
  }

  /** After filtering by a tag, the only tag left is that tag, if any photo
      carried it. */
  lemma FilteredTags(photos: seq<Photo>, tag: string)
    requires tag != AllTag
    ensures UniqueTags(FilterPhotos(Some(photos), tag)) == if tag in UniqueTags(photos) then [tag] else []
  {
    var shown := FilterPhotos(Some(photos), tag);
    var tags := UniqueTags(shown);
    FilteredTopics(photos, tag);
    if tag in UniqueTags(photos) {
      OfferedTagShowsPhotos(photos, tag);
      assert shown[0] in shown;
      OnlyElement(tags, tag);
    }
  }

  /** A duplicate-free sequence holding `x` and nothing else is `[x]`. */
  lemma OnlyElement(s: seq<string>, x: string)
    requires NoDuplicates(s) && x in s
    requires forall t :: t in s ==> t == x
    ensures s == [x]
  {
    NoDuplicatesCardinality(s);
    assert (set t | t in s) == {x};
    assert s[0] in s;
  }

  /** The photos shown for a tag carry only that tag, and carry it only if
      some photo of the whole list does. */
  lemma FilteredTopics(photos: seq<Photo>, tag: string)
    requires tag != AllTag
    ensures forall t :: t in UniqueTags(FilterPhotos(Some(photos), tag)) ==> t == tag && tag in UniqueTags(photos)
  {
    var shown := FilterPhotos(Some(photos), tag);
    forall t | t in UniqueTags(shown)
      ensures t == tag && tag in UniqueTags(photos)
    {
      var p :| p in shown && p.topic == t;
      assert multiset(shown)[p] == multiset(photos)[p];
      assert p in photos;
    }
  }

  /** Filtering the shown photos again by the same tag changes nothing. */
  lemma FilterIdempotent(photos: Option<seq<Photo>>, tag: string)
    ensures FilterPhotos(Some(FilterPhotos(photos, tag)), tag) == FilterPhotos(photos, tag)
  {
    if tag != AllTag {
      FilterAll(FilterPhotos(photos, tag), (p: Photo) => p.topic == tag);
    }
  }

  /** `propPhotos || contextPhotos`: a photo list passed in, even an empty one,
      wins over the shared one. */
  function EffectivePhotos(propPhotos: Option<seq<Photo>>, contextPhotos: Option<seq<Photo>>): (r: Option<seq<Photo>>)
    ensures r.None? <==> propPhotos.None? && contextPhotos.None?
    ensures propPhotos.Some? ==> r == propPhotos
    ensures propPhotos.None? ==> r == contextPhotos
  {
    if propPhotos.Some? then propPhotos else contextPhotos
  }

  /** With photos passed in, the shown photos do not depend on the shared ones. */
  lemma PropsTakePrecedence(props: seq<Photo>, context1: Option<seq<Photo>>,
                            context2: Option<seq<Photo>>, tag: string)
    ensures FilterPhotos(EffectivePhotos(Some(props), context1), tag)
         == FilterPhotos(EffectivePhotos(Some(props), context2), tag)
  {
  }

  /** `propMilestones || contextMilestones || []`. */
  function EffectiveMilestones(propMilestones: Option<seq<MilestoneTree.Milestone>>,
                               contextMilestones: Option<seq<MilestoneTree.Milestone>>): (r: seq<MilestoneTree.Milestone>)
    ensures propMilestones.Some? ==> r == propMilestones.value
    ensures propMilestones.None? && contextMilestones.Some? ==> r == contextMilestones.value
    ensures propMilestones.None? && contextMilestones.None? ==> r == []
  {
    match propMilestones
    case Some(ms) => ms
    case None => contextMilestones.GetOr([])
  }

  /** What the shared photo store's `getPhotos()` did: returned a list (or
      nothing), or threw. */
  datatype FetchOutcome = Returned(data: Option<seq<Photo>>) | Threw

  /** The photo list and the tag list the section stores. */
  datatype Listing = Listing(filteredPhotos: seq<Photo>, tags: seq<string>)

  /** `fetchPhotos`: photos passed in are used as they are, without fetching;
      otherwise a returned list is used, and a missing list or a failure leaves
      the section's state as it was (`None`). */
  function FetchPhotos(propPhotos: Option<seq<Photo>>, outcome: FetchOutcome): (r: Option<Listing>)
    ensures propPhotos.Some? ==> r == Some(Listing(propPhotos.value, UniqueTags(propPhotos.value)))
    ensures propPhotos.None? ==> (r.Some? <==> outcome.Returned? && outcome.data.Some?)
    ensures propPhotos.None? && outcome.Returned? && outcome.data.Some? ==>
              r == Some(Listing(outcome.data.value, UniqueTags(outcome.data.value)))
    ensures r.Some? ==>
      NoDuplicates(r.value.tags) &&
      forall t :: t in r.value.tags <==> exists p :: p in r.value.filteredPhotos && p.topic == t
  {
    match propPhotos
    case Some(ps) => Some(Listing(ps, UniqueTags(ps)))
    case None =>
      match outcome
      case Returned(Some(data)) => Some(Listing(data, UniqueTags(data)))
      case _ => None
  }

  /** With photos passed in, the outcome of a fetch plays no part. */
  lemma PropsSkipFetch(props: seq<Photo>, o1: FetchOutcome, o2: FetchOutcome)
    ensures FetchPhotos(Some(props), o1) == FetchPhotos(Some(props), o2)
  {
  }
}
