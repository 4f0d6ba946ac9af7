/** Scroll-driven tracking of the "active" page section, used to highlight the
    matching navigation link.

    On every scroll event the page visits its six anchor sections in a fixed
    order and probes the point 100 units below the current scroll offset. Every
    present section whose half-open vertical span contains the probe overwrites
    the active section, so the last match in visiting order wins; when nothing
    matches the previous value is kept.
 */
module Sections {

  /** The six anchor sections of the page. */
  datatype SectionId = Hero | About | Skills | Projects | Experience | Contact

  /** The order in which the scroll handler visits the sections. */
  const Order: seq<SectionId> := [Hero, About, Skills, Projects, Experience, Contact]

  /** How far below the scroll offset the page is probed. */
  const Lookahead: real := 100.0

  /** Layout of a rendered section element: its offsetTop and offsetHeight,
      which the document reports in whole units. */
  datatype Box = Box(top: int, height: int)

  /** The rendered document as the tracker sees it: the element found for each
      section id. An id that is not a key has no element in the document. */
  type Document = map<SectionId, Box>

  /** The point compared against the sections for a given scroll offset. */
  function Probe(scrollY: real): real {
    scrollY + Lookahead
  }

  /** The span [top, top + height) contains `p`: lower bound inclusive,
      upper bound exclusive. */
  predicate Contains(b: Box, p: real) {
    b.top as real <= p < (b.top + b.height) as real
  }

  /** Section `id` is present in `doc` and its span contains `p`. */
  predicate Matches(doc: Document, id: SectionId, p: real) {
    id in doc && Contains(doc[id], p)
  }

  /** One forward pass over `ids` with no early exit: each match overwrites
      the value carried along. */
  function Scan(ids: seq<SectionId>, doc: Document, p: real, current: SectionId): SectionId
    decreases |ids|
  {
    if |ids| == 0 then current
    else Scan(ids[1..], doc, p, if Matches(doc, ids[0], p) then ids[0] else current)
  }

  /** No id of `ids` matches. */
  predicate NoMatch(ids: seq<SectionId>, doc: Document, p: real) {
    forall j :: 0 <= j < |ids| ==> !Matches(doc, ids[j], p)
  }

  /** `k` is the index of the last id of `ids` that matches. */
  predicate IsLastMatch(ids: seq<SectionId>, doc: Document, p: real, k: int) {
    && 0 <= k < |ids|
    && Matches(doc, ids[k], p)
    && forall j :: k < j < |ids| ==> !Matches(doc, ids[j], p)
  }

  /** The pass keeps its starting value when nothing matches, and otherwise
      ends on the last match. */
  lemma {:induction false} ScanIsLastMatch(ids: seq<SectionId>, doc: Document, p: real, current: SectionId)
    ensures NoMatch(ids, doc, p) ==> Scan(ids, doc, p, current) == current
    ensures forall k :: IsLastMatch(ids, doc, p, k) ==> Scan(ids, doc, p, current) == ids[k]
    ensures Scan(ids, doc, p, current) == current || Matches(doc, Scan(ids, doc, p, current), p)
    decreases |ids|
  {
    if |ids| > 0 {
      var next := if Matches(doc, ids[0], p) then ids[0] else current;
      ScanIsLastMatch(ids[1..], doc, p, next);
      if NoMatch(ids, doc, p) {
        assert !Matches(doc, ids[0], p);
        assert NoMatch(ids[1..], doc, p) by {
          forall j | 0 <= j < |ids[1..]| ensures !Matches(doc, ids[1..][j], p) {
            assert ids[1..][j] == ids[j + 1];
          }
        }
      }
      forall k | IsLastMatch(ids, doc, p, k) ensures Scan(ids, doc, p, current) == ids[k] {
        if k == 0 {
          assert NoMatch(ids[1..], doc, p) by {
            forall j | 0 <= j < |ids[1..]| ensures !Matches(doc, ids[1..][j], p) {
              assert ids[1..][j] == ids[j + 1];
            }
          }
        } else {
          assert IsLastMatch(ids[1..], doc, p, k - 1) by {
            forall j | k - 1 < j < |ids[1..]| ensures !Matches(doc, ids[1..][j], p) {
              assert ids[1..][j] == ids[j + 1];
            }
          }
        }
      }
    }
  }

  /** When some id matches, a last match exists. */
  lemma {:induction false} LastMatchExists(ids: seq<SectionId>, doc: Document, p: real)
    requires !NoMatch(ids, doc, p)
    ensures exists k :: IsLastMatch(ids, doc, p, k)
    decreases |ids|
  {
    var rest := ids[1..];
    if NoMatch(rest, doc, p) {
      assert forall i :: 0 < i < |ids| ==> ids[i] == rest[i - 1];
      assert IsLastMatch(ids, doc, p, 0) by {
        forall i | 0 < i < |ids| ensures !Matches(doc, ids[i], p) {
          assert rest[i - 1] == ids[i];
        }
      }
    } else {
      LastMatchExists(rest, doc, p);
      var k :| IsLastMatch(rest, doc, p, k);
      assert IsLastMatch(ids, doc, p, k + 1) by {
        assert ids[k + 1] == rest[k];
        forall i | k + 1 < i < |ids| ensures !Matches(doc, ids[i], p) {
          assert rest[i - 1] == ids[i];
        }
      }
    }
  }

  /** Two last matches are the same index. */
  lemma LastMatchUnique(ids: seq<SectionId>, doc: Document, p: real, k: int, k': int)
    requires IsLastMatch(ids, doc, p, k) && IsLastMatch(ids, doc, p, k')
    ensures k == k'
  {
  }

  /** The active section after a scroll, as a scroll handler computes it from
      the document, the scroll offset and the previously active section. */
  function Track(doc: Document, scrollY: real, prev: SectionId): (r: SectionId)
    ensures NoMatch(Order, doc, Probe(scrollY)) ==> r == prev
    ensures forall k :: IsLastMatch(Order, doc, Probe(scrollY), k) ==> r == Order[k]
    ensures r == prev || Matches(doc, r, Probe(scrollY))
  {
    ScanIsLastMatch(Order, doc, Probe(scrollY), prev);
    Scan(Order, doc, Probe(scrollY), prev)
  }

  /** Independent description of the tracker's result: the previous section
      when no section contains the probe, otherwise the last section in
      visiting order that contains it. */
  ghost predicate Tracked(doc: Document, scrollY: real, prev: SectionId, r: SectionId) {
    if NoMatch(Order, doc, Probe(scrollY)) then r == prev
    else exists k :: IsLastMatch(Order, doc, Probe(scrollY), k) && r == Order[k]
  }

  /** The tracker computes exactly the section the description names. */
  lemma TrackIsTracked(doc: Document, scrollY: real, prev: SectionId, r: SectionId)
    ensures Tracked(doc, scrollY, prev, r) <==> r == Track(doc, scrollY, prev)
  {
    var p := Probe(scrollY);
    if !NoMatch(Order, doc, p) {
      LastMatchExists(Order, doc, p);
      var k :| IsLastMatch(Order, doc, p, k);
      if Tracked(doc, scrollY, prev, r) {
        var k' :| IsLastMatch(Order, doc, p, k') && r == Order[k'];
        LastMatchUnique(Order, doc, p, k, k');
      }
    }
  }

  /** The scroll handler as a loop: it visits the sections in order and
      overwrites the active section on every match. */
  method HandleScroll(doc: Document, scrollY: real, prev: SectionId) returns (active: SectionId)
    ensures active == Track(doc, scrollY, prev)
    ensures Tracked(doc, scrollY, prev, active)
  {
    var position := scrollY + Lookahead;
    active := prev;
    var i := 0;
    while i < |Order|
      invariant 0 <= i <= |Order|
      invariant Scan(Order[i..], doc, position, active) == Track(doc, scrollY, prev)
    {
      var section := Order[i];
      if section in doc && doc[section].top as real <= position
         && position < (doc[section].top + doc[section].height) as real
      {
        active := section;
      }
      assert Order[i..][1..] == Order[i + 1..];
      i := i + 1;
    }
    TrackIsTracked(doc, scrollY, prev, active);
  }

  /** A document with none of the sections (the loading placeholder) never
      changes the active section. */
  lemma EmptyDocumentKeepsActive(scrollY: real, prev: SectionId)
    ensures Track(map[], scrollY, prev) == prev
  {
  }

  /** A section with no element never becomes active, whatever the offsets of
      the others. */
  lemma AbsentSectionNeverActivated(doc: Document, scrollY: real, prev: SectionId, id: SectionId)
    requires id !in doc && prev != id
    ensures Track(doc, scrollY, prev) != id
  {
  }

  /** With one present section of positive height the probe matches it at its
      top edge and not at its bottom edge. */
  lemma SpanIsHalfOpen(id: SectionId, b: Box, prev: SectionId)
    requires b.height > 0
    ensures Track(map[id := b], b.top as real - Lookahead, prev) == id
    ensures Track(map[id := b], (b.top + b.height) as real - Lookahead, prev) == prev
  {
  }

  /** Every section appears in the visiting order exactly once. */
  lemma OrderDistinct()
    ensures forall id :: id in Order
    ensures forall i, j :: 0 <= i < j < |Order| ==> Order[i] != Order[j]
  {
    forall id ensures id in Order {
      match id
      case Hero => assert Order[0] == id;
      case About => assert Order[1] == id;
      case Skills => assert Order[2] == id;
      case Projects => assert Order[3] == id;
      case Experience => assert Order[4] == id;
      case Contact => assert Order[5] == id;
    }
  }

  /** The class of navigation link `link` when `active` is the active section. */
  function NavClass(active: SectionId, link: SectionId): string {
    if active == link then "active" else ""
  }

  /** Exactly one of the six navigation links is highlighted. */
  lemma OneLinkHighlighted(active: SectionId)
    ensures exists k :: 0 <= k < |Order| && NavClass(active, Order[k]) == "active"
    ensures forall i, j ::
              (0 <= i < |Order| && 0 <= j < |Order|
               && NavClass(active, Order[i]) == "active"
               && NavClass(active, Order[j]) == "active") ==> i == j
  {
    OrderDistinct();
    assert active in Order;
  }
}
