/** The section list macros on objects, each proved to make exactly the pointer changes its function describes. */
module SectionList {
  import opened Bytes
  import opened SectionChain

  class Section {
    var next: Section?
    var prev: Section?

    constructor ()
      ensures next == null && prev == null
    {
      next, prev := null, null;
    }
  }

  function Ref(s: Section?): Option<Section> {
    if s == null then None else Some(s)
  }

  /** The links of every section in `pool`. */
  ghost function LinksOf(pool: set<Section>): (links: map<Section, Link<Section>>)
    reads pool
    ensures links.Keys == pool
  {
    map s | s in pool :: Link(Ref(s.next), Ref(s.prev))
  }

  class Bfd {
    var sections: Section?
    var sectionLast: Section?

    constructor ()
      ensures sections == null && sectionLast == null
    {
      sections, sectionLast := null, null;
    }

    /** All pointers: the links of every section in `pool`, in the list or not, and the two ends. */
    ghost function Pointers(pool: set<Section>): (c: Chain<Section>)
      reads this, pool
      ensures c.links.Keys == pool
    {
      Chain(LinksOf(pool), Ref(sections), Ref(sectionLast))
    }

    /** `s->next = p` */
    method SetNext(s: Section, p: Section?, ghost pool: set<Section>)
      requires s in pool
      modifies s`next
      ensures Pointers(pool) == SectionChain.SetNext(old(Pointers(pool)), s, Ref(p))
    {
      s.next := p;
      assert Pointers(pool).links == SectionChain.SetNext(old(Pointers(pool)), s, Ref(p)).links;
    }

    /** `s->prev = p` */
    method SetPrev(s: Section, p: Section?, ghost pool: set<Section>)
      requires s in pool
      modifies s`prev
      ensures Pointers(pool) == SectionChain.SetPrev(old(Pointers(pool)), s, Ref(p))
    {
      s.prev := p;
      assert Pointers(pool).links == SectionChain.SetPrev(old(Pointers(pool)), s, Ref(p)).links;
    }

    /** `abfd->sections = p` */
    method SetFirst(p: Section?, ghost pool: set<Section>)
      modifies this`sections
      ensures Pointers(pool) == old(Pointers(pool)).(first := Ref(p)) && sectionLast == old(sectionLast)
    {
      sections := p;
    }

    /** `abfd->section_last = p` */
    method SetLast(p: Section?, ghost pool: set<Section>)
      modifies this`sectionLast
      ensures Pointers(pool) == old(Pointers(pool)).(last := Ref(p)) && sections == old(sections)
    {
      sectionLast := p;
    }

    method Remove(s: Section, ghost pool: set<Section>)
      requires s in pool && Closed(Pointers(pool))
      modifies this, pool
      ensures Pointers(pool) == SectionChain.Remove(old(Pointers(pool)), s)
    {
      var next, prev := s.next, s.prev;
      LinksKnown(s, pool);
      hide SectionChain.SetNext, SectionChain.SetPrev, Closed, LinksOf;
      if prev != null {
        SetNext(prev, next, pool);
      } else {
        SetFirst(next, pool);
      }
      if next != null {
        SetPrev(next, prev, pool);
      } else {
        SetLast(prev, pool);
      }
    }

    lemma LinksKnown(s: Section, pool: set<Section>)
      requires s in pool && Closed(Pointers(pool))
      ensures Pointers(pool).links[s] == Link(Ref(s.next), Ref(s.prev))
      ensures Known(Pointers(pool).links, Ref(s.next)) && Known(Pointers(pool).links, Ref(s.prev))
      ensures Known(Pointers(pool).links, Ref(sections)) && Known(Pointers(pool).links, Ref(sectionLast))
    {
      assert Pointers(pool).links[s] == Link(Ref(s.next), Ref(s.prev));
    }

    method Append(s: Section, ghost pool: set<Section>)
      requires s in pool && Closed(Pointers(pool))
      modifies this, pool
      ensures Pointers(pool) == SectionChain.Append(old(Pointers(pool)), s)
    {
      LinksKnown(s, pool);
      hide SectionChain.SetNext, SectionChain.SetPrev, Closed, LinksOf;
      SetNext(s, null, pool);
      if sectionLast != null {
        SetPrev(s, sectionLast, pool);
        SetNext(sectionLast, s, pool);
      } else {
        SetPrev(s, null, pool);
        SetFirst(s, pool);
      }
      SetLast(s, pool);
    }

    method Prepend(s: Section, ghost pool: set<Section>)
      requires s in pool && Closed(Pointers(pool))
      modifies this, pool
      ensures Pointers(pool) == SectionChain.Prepend(old(Pointers(pool)), s)
    {
      LinksKnown(s, pool);
      hide SectionChain.SetNext, SectionChain.SetPrev, Closed, LinksOf;
      SetPrev(s, null, pool);
      if sections != null {
        SetNext(s, sections, pool);
        SetPrev(sections, s, pool);
      } else {
        SetNext(s, null, pool);
        SetLast(s, pool);
      }
      SetFirst(s, pool);
    }

    method InsertAfter(a: Section, s: Section, ghost pool: set<Section>)
      requires a in pool && s in pool && Closed(Pointers(pool))
      modifies this, pool
      ensures Pointers(pool) == SectionChain.InsertAfter(old(Pointers(pool)), a, s)
    {
      LinksKnown(a, pool);
      hide SectionChain.SetNext, SectionChain.SetPrev, Closed, LinksOf;
      var next := a.next;
      SetNext(s, next, pool);
      SetPrev(s, a, pool);
      SetNext(a, s, pool);
      if next != null {
        SetPrev(next, s, pool);
      } else {
        SetLast(s, pool);
      }
    }

    method InsertBefore(b: Section, s: Section, ghost pool: set<Section>)
      requires b in pool && s in pool && Closed(Pointers(pool))
      modifies this, pool
      ensures Pointers(pool) == SectionChain.InsertBefore(old(Pointers(pool)), b, s)
    {
      LinksKnown(b, pool);
      hide SectionChain.SetNext, SectionChain.SetPrev, Closed, LinksOf;
      var prev := b.prev;
      SetPrev(s, prev, pool);
      SetNext(s, b, pool);
      SetPrev(b, s, pool);
      if prev != null {
        SetNext(prev, s, pool);
      } else {
        SetFirst(s, pool);
      }
    }

    method RemovedFromList(s: Section, ghost pool: set<Section>) returns (removed: bool)
      requires s in pool && Closed(Pointers(pool))
      ensures removed == SectionChain.RemovedFromList(Pointers(pool), s)
    {
      assert Known(Pointers(pool).links, Pointers(pool).links[s].next);
      removed := if s.next == null then sectionLast != s else s.next.prev != s;
    }
  }
}
