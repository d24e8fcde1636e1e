/** The records of the MUSE pager that the source updates in place. */
module Pages {
  import opened Sequences

  /** A page.  `fr` is a frame number while the page is present and a swap slot while it is
      not. */
  class Page {
    var isModify: bool
    var isUsed: bool
    var isPresent: bool
    var fr: nat

    constructor (fr: nat)
      ensures isPresent && isUsed && !isModify && this.fr == fr
    {
      isModify, isUsed, isPresent := false, true, true;
      this.fr := fr;
    }
  }

  /** A heap segment.  Its base is always 0: a program without mmap segments has one segment. */
  class Segment {
    var limit: nat
    var pageTable: seq<Page>

    constructor ()
      ensures limit == 0 && pageTable == []
    {
      limit, pageTable := 0, [];
    }
  }

  ghost function TablesOf(ss: seq<Segment>): (ts: seq<seq<Page>>)
    reads ss
    ensures |ts| == |ss|
  {
    seq(|ss|, i requires 0 <= i < |ss| reads ss => ss[i].pageTable)
  }

  /** All pages of the segments, in `lista_de_segmentos` order. */
  ghost function AllPages(ss: seq<Segment>): (r: seq<Page>)
    reads ss
  {
    Concat(TablesOf(ss))
  }

  /** Where the pages of segment `s` are in `AllPages(ss)`. */
  lemma AllPagesSlice(ss: seq<Segment>, s: nat)
    requires s < |ss|
    ensures var off, t := |AllPages(ss[..s])|, ss[s].pageTable;
            && off + |t| <= |AllPages(ss)| && AllPages(ss)[off..off + |t|] == t
            && |AllPages(ss[..s + 1])| == off + |t|
            && (s + 1 == |ss| ==> off + |t| == |AllPages(ss)|)
  {
    ConcatSlice(TablesOf(ss), s);
    assert TablesOf(ss[..s]) == TablesOf(ss)[..s];
    assert TablesOf(ss[..s + 1]) == TablesOf(ss)[..s + 1];
  }
}
