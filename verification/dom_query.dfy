/** Tree-order queries on the abstract HTML tree: `querySelector(tag)`, `querySelectorAll(tag)`,
    replacing the first match in place, and what is left of the matches once every one of them
    has been moved out, one after another, to a new parent. Each query comes in two mutually
    recursive halves, here and in the modules built on them: a name ending in `F` takes a forest
    (a list of sibling nodes), one ending in `N` a single node. */
module DomQuery {

  import opened Wrappers
  import opened Dom

  /** `querySelector(tag)` on a node's children: the first element named `tag` in tree order
      (an element comes before its descendants). */
  function FirstF(cs: seq<Node>, tag: string): (r: Option<Node>)
    ensures r.Some? ==> IsElement(r.value, tag)
    decreases cs
  {
    if cs == [] then None
    else match FirstN(cs[0], tag)
      case Some(m) => Some(m)
      case None => FirstF(cs[1..], tag)
  }

  function FirstN(n: Node, tag: string): (r: Option<Node>)
    ensures r.Some? ==> IsElement(r.value, tag)
    decreases n
  {
    if IsElement(n, tag) then Some(n)
    else if n.Element? then FirstF(n.children, tag)
    else None
  }

  /** The children with every element named `tag` removed, at any depth, together with its
      subtree. */
  function DropF(cs: seq<Node>, tag: string): (r: seq<Node>)
    decreases cs
  {
    if cs == [] then [] else DropN(cs[0], tag) + DropF(cs[1..], tag)
  }

  function DropN(n: Node, tag: string): (r: seq<Node>)
    decreases n
  {
    if IsElement(n, tag) then []
    else if n.Element? then [n.(children := DropF(n.children, tag))]
    else [n]
  }

  /** `querySelectorAll(tag)` in tree order, each match as it stands once all of them have been
      appended, in that order, to a new parent: a match nested inside an earlier one has been
      moved out of it by then. */
  function SelectF(cs: seq<Node>, tag: string): (r: seq<Node>)
    ensures forall i | 0 <= i < |r| :: IsElement(r[i], tag)
    decreases cs
  {
    if cs == [] then [] else SelectN(cs[0], tag) + SelectF(cs[1..], tag)
  }

  function SelectN(n: Node, tag: string): (r: seq<Node>)
    ensures forall i | 0 <= i < |r| :: IsElement(r[i], tag)
    decreases n
  {
    if IsElement(n, tag) then [n.(children := DropF(n.children, tag))] + SelectF(n.children, tag)
    else if n.Element? then SelectF(n.children, tag)
    else []
  }

  /** The children with the first element named `tag` (in tree order) replaced, where it stands,
      by `repl`: `repl == []` is `remove()`, a single node is an in-place edit. */
  function EditF(cs: seq<Node>, tag: string, repl: seq<Node>): (r: seq<Node>)
    decreases cs
  {
    if cs == [] then []
    else if FirstN(cs[0], tag).Some? then EditN(cs[0], tag, repl) + cs[1..]
    else [cs[0]] + EditF(cs[1..], tag, repl)
  }

  function EditN(n: Node, tag: string, repl: seq<Node>): (r: seq<Node>)
    decreases n
  {
    if IsElement(n, tag) then repl
    else if n.Element? then [n.(children := EditF(n.children, tag, repl))]
    else [n]
  }

  /** There is a match exactly when `querySelectorAll` finds something, and the first match
      `querySelectorAll` lists is the one `querySelector` returns. */
  lemma {:induction false} FirstIsSelectedF(cs: seq<Node>, tag: string)
    ensures FirstF(cs, tag).None? <==> SelectF(cs, tag) == []
    ensures FirstF(cs, tag).Some? ==>
      SelectF(cs, tag)[0] == FirstF(cs, tag).value.(children := DropF(FirstF(cs, tag).value.children, tag))
    decreases cs
  {
    if cs != [] {
      FirstIsSelectedN(cs[0], tag);
      FirstIsSelectedF(cs[1..], tag);
    }
  }

  lemma {:induction false} FirstIsSelectedN(n: Node, tag: string)
    ensures FirstN(n, tag).None? <==> SelectN(n, tag) == []
    ensures FirstN(n, tag).Some? ==>
      SelectN(n, tag)[0] == FirstN(n, tag).value.(children := DropF(FirstN(n, tag).value.children, tag))
    decreases n
  {
    if !IsElement(n, tag) && n.Element? {
      FirstIsSelectedF(n.children, tag);
    }
  }

  /** Without a match, nothing is dropped. */
  lemma {:induction false} DropNothingF(cs: seq<Node>, tag: string)
    requires FirstF(cs, tag).None?
    ensures DropF(cs, tag) == cs
    decreases cs
  {
    if cs != [] {
      DropNothingN(cs[0], tag);
      DropNothingF(cs[1..], tag);
    }
  }

  lemma {:induction false} DropNothingN(n: Node, tag: string)
    requires FirstN(n, tag).None?
    ensures DropN(n, tag) == [n]
    decreases n
  {
    if n.Element? {
      DropNothingF(n.children, tag);
    }
  }

  lemma {:induction false} SelectAppend(a: seq<Node>, b: seq<Node>, tag: string)
    ensures SelectF(a + b, tag) == SelectF(a, tag) + SelectF(b, tag)
    decreases |a|
  {
    if a == [] {
      assert a + b == b;
    } else {
      assert (a + b)[1..] == a[1..] + b;
      SelectAppend(a[1..], b, tag);
    }
  }

  /** Replacing a first match that holds no further match: `querySelectorAll` afterwards lists
      the replacement's matches, then every later match as before. */
  lemma {:induction false} EditSelectF(cs: seq<Node>, tag: string, repl: seq<Node>)
    requires FirstF(cs, tag).Some? && FirstF(FirstF(cs, tag).value.children, tag).None?
    ensures SelectF(cs, tag) != []
      && SelectF(EditF(cs, tag, repl), tag) == SelectF(repl, tag) + SelectF(cs, tag)[1..]
    decreases cs, 1
  {
    if FirstN(cs[0], tag).Some? {
      EditSelectHere(cs, tag, repl);
    } else {
      EditSelectLater(cs, tag, repl);
    }
  }

  lemma {:induction false} EditSelectHere(cs: seq<Node>, tag: string, repl: seq<Node>)
    requires cs != [] && FirstN(cs[0], tag).Some? && FirstF(FirstN(cs[0], tag).value.children, tag).None?
    ensures SelectF(cs, tag) != []
      && SelectF(EditF(cs, tag, repl), tag) == SelectF(repl, tag) + SelectF(cs, tag)[1..]
    decreases cs, 0
  {
    EditSelectN(cs[0], tag, repl);
    SelectAppend(EditN(cs[0], tag, repl), cs[1..], tag);
    DropHead(SelectN(cs[0], tag), SelectF(cs[1..], tag));
  }

  lemma {:induction false} EditSelectLater(cs: seq<Node>, tag: string, repl: seq<Node>)
    requires cs != [] && FirstN(cs[0], tag).None?
    requires FirstF(cs[1..], tag).Some? && FirstF(FirstF(cs[1..], tag).value.children, tag).None?
    ensures SelectF(cs, tag) != []
      && SelectF(EditF(cs, tag, repl), tag) == SelectF(repl, tag) + SelectF(cs, tag)[1..]
    decreases cs, 0
  {
    FirstIsSelectedN(cs[0], tag);
    EditSelectF(cs[1..], tag, repl);
    SelectAppend([cs[0]], EditF(cs[1..], tag, repl), tag);
    assert SelectF([cs[0]], tag) == SelectN(cs[0], tag);
  }

  lemma DropHead<T>(a: seq<T>, b: seq<T>)
    requires a != []
    ensures (a + b)[1..] == a[1..] + b
  {
  }

  lemma {:induction false} EditSelectN(n: Node, tag: string, repl: seq<Node>)
    requires FirstN(n, tag).Some? && FirstF(FirstN(n, tag).value.children, tag).None?
    ensures SelectN(n, tag) != []
      && SelectF(EditN(n, tag, repl), tag) == SelectF(repl, tag) + SelectN(n, tag)[1..]
    decreases n
  {
    if IsElement(n, tag) {
      FirstIsSelectedF(n.children, tag);
      assert SelectN(n, tag) == [n.(children := DropF(n.children, tag))];
    } else {
      EditSelectF(n.children, tag, repl);
      var m := n.(children := EditF(n.children, tag, repl));
      assert SelectF([m], tag) == SelectN(m, tag);
    }
  }

  /** No match among the children exactly when no child holds one. */
  lemma {:induction false} FirstNoneAll(cs: seq<Node>, tag: string)
    ensures FirstF(cs, tag).None? <==> forall i | 0 <= i < |cs| :: FirstN(cs[i], tag).None?
    decreases |cs|
  {
    if cs != [] {
      FirstNoneAll(cs[1..], tag);
      assert forall i | 1 <= i < |cs| :: cs[i] == cs[1..][i - 1];
    }
  }

  lemma FirstNoneSuffix(cs: seq<Node>, tag: string, k: nat)
    requires k <= |cs| && FirstF(cs, tag).None?
    ensures FirstF(cs[k..], tag).None?
  {
    FirstNoneAll(cs, tag);
    FirstNoneAll(cs[k..], tag);
    assert forall i | 0 <= i < |cs[k..]| :: cs[k..][i] == cs[k + i];
  }

  /** A lone element without nested matches selects as itself, when it is a match. */
  lemma SelectFlat(n: Node, tag: string)
    requires IsElement(n, tag) && FirstF(n.children, tag).None?
    ensures SelectF([n], tag) == [n]
  {
    DropNothingF(n.children, tag);
    FirstIsSelectedF(n.children, tag);
    assert [n][1..] == [];
  }
}
