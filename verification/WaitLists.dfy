/** The list of suspended coroutines that `Channel` and `Future` keep: a
    forward_list and an iterator to the node after which the next one goes.

    Popping the front node leaves the iterator alone, so the iterator dangles
    once it named that node; inserting through a dangling iterator is undefined.
 */
module WaitLists {

  datatype Cursor = BeforeBegin | Node(index: nat) | Dangling

  datatype WaitList<W> = WaitList(nodes: seq<W>, cursor: Cursor) {

    /** Inserting now would put the new node at the end. */
    ghost predicate AtTail() {
      match cursor
      case BeforeBegin => nodes == []
      case Node(i) => i + 1 == |nodes|
      case Dangling => false
    }

    /** The states that insertions at the tail and pops lead to. */
    ghost predicate Valid() {
      AtTail() || (cursor == Dangling && nodes == [])
    }

    function EmplaceAfter(w: W): WaitList<W>
      requires cursor != Dangling && (cursor.Node? ==> cursor.index < |nodes|)
    {
      var k := if cursor == BeforeBegin then 0 else cursor.index + 1;
      WaitList(nodes[..k] + [w] + nodes[k..], Node(k))
    }

    function PopFront(): WaitList<W>
      requires nodes != []
    {
      WaitList(nodes[1..],
               match cursor
               case BeforeBegin => BeforeBegin
               case Node(0) => Dangling
               case Node(i) => Node(i - 1)
               case Dangling => Dangling)
    }
  }

  lemma EmplaceAtTail<W>(l: WaitList<W>, w: W)
    requires l.AtTail()
    ensures l.EmplaceAfter(w).nodes == l.nodes + [w] && l.EmplaceAfter(w).AtTail()
  {
    assert l.nodes[..|l.nodes|] == l.nodes && l.nodes[|l.nodes|..] == [];
  }
}
