/** An abstract HTML tree: what `DOMParser` builds and `innerHTML` serialises, reduced to the parts
    the transformations read and write. Tag names are lower-case local names (`p`, `br`,
    `blockquote`, `img`). An element's inline style is kept apart from its other attributes as
    the ordered declaration list `element.style` holds. */
module Dom {

  import opened Wrappers

  /** An ordered list of name/value pairs: an attribute list or a CSS declaration block. */
  type Pairs = seq<(string, string)>

  datatype Node =
    | Text(data: string)
    | Comment(data: string)
    | Element(tag: string, attrs: Pairs, style: Pairs, children: seq<Node>)

  predicate IsElement(n: Node, tag: string) {
    n.Element? && n.tag == tag
  }

  /** The names of a pair list, in order. */
  function Names(d: Pairs): seq<string> {
    if d == [] then [] else [d[0].0] + Names(d[1..])
  }

  /** The value of the first pair named `name` (`getAttribute`, `getPropertyValue`). */
  function Lookup(d: Pairs, name: string): (r: Option<string>)
    ensures r.None? <==> name !in Names(d)
  {
    if d == [] then None
    else if d[0].0 == name then Some(d[0].1)
    else Lookup(d[1..], name)
  }

  /** `setAttribute` / `style.setProperty`: the value of an existing name is replaced where it
      stands; a new name is appended at the end. */
  function Set(d: Pairs, name: string, value: string): (r: Pairs)
    ensures Lookup(r, name) == Some(value)
    ensures forall other :: other != name ==> Lookup(r, other) == Lookup(d, other)
    ensures Names(r) == if name in Names(d) then Names(d) else Names(d) + [name]
  {
    if d == [] then [(name, value)]
    else if d[0].0 == name then [(name, value)] + d[1..]
    else
      var r := [d[0]] + Set(d[1..], name, value);
      assert r[1..] == Set(d[1..], name, value);
      r
  }

  /** `setElementStyles`: `setProperty` for each entry, in order. */
  function SetAll(d: Pairs, entries: Pairs): (r: Pairs)
    ensures forall other :: other !in Names(entries) ==> Lookup(r, other) == Lookup(d, other)
    decreases |entries|
  {
    if entries == [] then d
    else SetAll(Set(d, entries[0].0, entries[0].1), entries[1..])
  }

  /** The last entry wins: after `SetAll`, a name carries the value of its last entry. */
  lemma {:induction false} SetAllLookup(d: Pairs, entries: Pairs, i: nat)
    requires i < |entries| && forall j | i < j < |entries| :: entries[j].0 != entries[i].0
    ensures Lookup(SetAll(d, entries), entries[i].0) == Some(entries[i].1)
    decreases |entries|
  {
    var d' := Set(d, entries[0].0, entries[0].1);
    if i == 0 {
      assert entries[i].0 !in Names(entries[1..]) by {
        NamesIndex(entries[1..]);
      }
    } else {
      SetAllLookup(d', entries[1..], i - 1);
    }
  }

  lemma {:induction false} NamesIndex(d: Pairs)
    ensures |Names(d)| == |d|
    ensures forall j | 0 <= j < |d| :: Names(d)[j] == d[j].0
    decreases |d|
  {
    if d != [] {
      NamesIndex(d[1..]);
    }
  }

  /** `textContent` of an element: the data of every Text descendant in tree order. Comments do not
      contribute. */
  function ChildrenText(cs: seq<Node>): string
    decreases cs
  {
    if cs == [] then [] else DescendantText(cs[0]) + ChildrenText(cs[1..])
  }

  function DescendantText(n: Node): string
    decreases n
  {
    match n
    case Text(d) => d
    case Comment(_) => []
    case Element(_, _, _, cs) => ChildrenText(cs)
  }

  /** `textContent` read on the node itself: a comment gives its own data. */
  function TextContent(n: Node): string {
    match n
    case Text(d) => d
    case Comment(d) => d
    case Element(_, _, _, cs) => ChildrenText(cs)
  }

  lemma {:induction false} ChildrenTextAppend(a: seq<Node>, b: seq<Node>)
    ensures ChildrenText(a + b) == ChildrenText(a) + ChildrenText(b)
    decreases |a|
  {
    if a != [] {
      assert (a + b)[1..] == a[1..] + b;
      ChildrenTextAppend(a[1..], b);
    } else {
      assert a + b == b;
    }
  }
}
