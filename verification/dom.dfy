/** The page, abstracted. A text node's place in its parent's child list is a Slot: at load
    time a slot holds the one text node, after highlighting it holds the fragment that replaced
    it, after clearing it holds the restored text. Document order is slot order, then left to
    right inside a slot. */
module Dom {
  import opened Wrappers

  /** A child node: a text node, or a highlight span created by the engine (class
      `content-search-highlight`, attribute `data-search-index` = `idx`, class `active` when
      `active`), which holds exactly one text. */
  datatype Node = Text(s: string) | Span(s: string, idx: nat, active: bool)

  /** What the engine reads of a parent element: its tag name and its class list. */
  datatype Parent = Parent(tag: string, classes: seq<string>)

  /** One text node's place in the page; `parent` is None for a node with no parent element. */
  datatype Slot = Slot(parent: Option<Parent>, nodes: seq<Node>)

  type Page = seq<Slot>

  /** The `textContent` of a run of nodes. */
  function TextOf(ns: seq<Node>): string {
    if |ns| == 0 then [] else ns[0].s + TextOf(ns[1..])
  }

  /** The `data-search-index` of every span in a run of nodes, left to right. */
  function Indices(ns: seq<Node>): seq<nat> {
    if |ns| == 0 then [] else (if ns[0].Span? then [ns[0].idx] else []) + Indices(ns[1..])
  }

  lemma TextOfAppend(a: seq<Node>, b: seq<Node>)
    ensures TextOf(a + b) == TextOf(a) + TextOf(b)
  {
    if |a| > 0 {
      assert (a + b)[1..] == a[1..] + b;
      TextOfAppend(a[1..], b);
    } else {
      assert a + b == b;
    }
  }

  lemma IndicesAppend(a: seq<Node>, b: seq<Node>)
    ensures Indices(a + b) == Indices(a) + Indices(b)
  {
    if |a| > 0 {
      assert (a + b)[1..] == a[1..] + b;
      IndicesAppend(a[1..], b);
    } else {
      assert a + b == b;
    }
  }

  lemma IndicesEmptyIffNoSpan(ns: seq<Node>)
    ensures Indices(ns) == [] <==> forall i :: 0 <= i < |ns| ==> ns[i].Text?
  {
    if |ns| > 0 {
      IndicesEmptyIffNoSpan(ns[1..]);
      assert forall i :: 1 <= i < |ns| ==> ns[i] == ns[1..][i - 1];
    }
  }

  /** No text node is empty and no two text nodes are adjacent: the form `Node.normalize()`
      leaves behind. */
  predicate Normalized(ns: seq<Node>) {
    && (forall i :: 0 <= i < |ns| && ns[i].Text? ==> ns[i].s != [])
    && (forall i :: 0 <= i < |ns| - 1 && ns[i].Text? ==> !ns[i + 1].Text?)
  }

  /** `normalize()` on a run of nodes: empty text nodes are dropped and adjacent text nodes are
      merged; spans are kept as they are. */
  function Normalize(ns: seq<Node>): (r: seq<Node>)
    ensures Normalized(r)
    ensures TextOf(r) == TextOf(ns)
    ensures Indices(r) == Indices(ns)
    ensures |r| <= |ns|
  {
    if |ns| == 0 then []
    else
      var rest := Normalize(ns[1..]);
      match ns[0]
      case Span(_, _, _) =>
        assert ([ns[0]] + rest)[1..] == rest;
        [ns[0]] + rest
      case Text(s) =>
        if s == [] then rest
        else if |rest| > 0 && rest[0].Text? then
          assert ([Text(s + rest[0].s)] + rest[1..])[1..] == rest[1..];
          [Text(s + rest[0].s)] + rest[1..]
        else
          assert ([Text(s)] + rest)[1..] == rest;
          [Text(s)] + rest
  }

  /** A normalized run is left alone by `normalize()`. */
  lemma {:induction false} NormalizeIdempotent(ns: seq<Node>)
    requires Normalized(ns)
    ensures Normalize(ns) == ns
  {
    if |ns| > 0 {
      assert Normalized(ns[1..]);
      NormalizeIdempotent(ns[1..]);
    }
  }

  /** The single text node holding `s`, or nothing when `s` is empty. */
  function TextSlot(s: string): seq<Node> {
    if s == [] then [] else [Text(s)]
  }

  /** A normalized run without spans is one text node holding all its text, or nothing. */
  lemma NormalizedTextOnly(ns: seq<Node>)
    requires Normalized(ns) && Indices(ns) == []
    ensures ns == TextSlot(TextOf(ns))
  {
    IndicesEmptyIffNoSpan(ns);
    if |ns| == 1 {
      assert ns[1..] == [];
      assert TextOf(ns) == ns[0].s;
      assert ns[0].s != [];
      assert ns == [Text(ns[0].s)];
    } else if |ns| > 1 {
      assert false;
    }
  }

  /** Every span index on the page, in document order. */
  function AllIndices(page: Page): seq<nat> {
    if |page| == 0 then [] else Indices(page[0].nodes) + AllIndices(page[1..])
  }

  lemma AllIndicesAppend(a: Page, b: Page)
    ensures AllIndices(a + b) == AllIndices(a) + AllIndices(b)
  {
    if |a| > 0 {
      assert (a + b)[1..] == a[1..] + b;
      AllIndicesAppend(a[1..], b);
    } else {
      assert a + b == b;
    }
  }

  lemma AllIndicesSplit(page: Page, k: nat)
    requires k < |page|
    ensures AllIndices(page) == AllIndices(page[..k]) + Indices(page[k].nodes) + AllIndices(page[k + 1..])
  {
    var a, x, b := page[..k], page[k], page[k + 1..];
    AllIndicesAppend(a + [x], b);
    AllIndicesAppend(a, [x]);
    assert AllIndices([x]) == Indices(x.nodes) by {
      assert [x][1..] == [];
    }
    assert page == (a + [x]) + b;
  }

  lemma AllIndicesEmpty(page: Page)
    ensures AllIndices(page) == [] <==> forall k :: 0 <= k < |page| ==> Indices(page[k].nodes) == []
  {
    if |page| > 0 {
      AllIndicesEmpty(page[1..]);
      assert forall k :: 1 <= k < |page| ==> page[k] == page[1..][k - 1];
    }
  }

  lemma InAllIndices(page: Page, x: nat)
    ensures x in AllIndices(page) <==> exists k :: 0 <= k < |page| && x in Indices(page[k].nodes)
  {
    if |page| > 0 {
      InAllIndices(page[1..], x);
      if x in AllIndices(page[1..]) {
        var k :| 0 <= k < |page| - 1 && x in Indices(page[1..][k].nodes);
        assert page[1..][k] == page[k + 1];
      }
      if exists k :: 0 <= k < |page| && x in Indices(page[k].nodes) {
        var k :| 0 <= k < |page| && x in Indices(page[k].nodes);
        if k > 0 { assert page[k] == page[1..][k - 1]; }
      }
    }
  }
}
