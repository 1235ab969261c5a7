/** The singly linked list with its restarting iterator, first as a value:
    the contents head to tail and where the iterator's cursor stands. */
module ListModel {
  import opened Wrappers

  /** Where the iterator stands: `Start` is `current == None` (the next
      call reads the head); `At(k)` is `current` pointing at the k-th cell,
      the one holding the k-th element (0-based) or the end marker when
      `k` is the length. */
  datatype Cursor = Start | At(index: nat)

  datatype List<T> = List(contents: seq<T>, cursor: Cursor)

  /** The cursor states the list can be in: a cursor inside the list sits
      after the head, and an empty list has none. */
  predicate WellFormed<T>(l: List<T>)
  {
    l.cursor.At? ==> 1 <= l.cursor.index <= |l.contents|
  }

  /** `LinkedList::new`. */
  function New<T>(): (l: List<T>)
    ensures WellFormed(l) && l.contents == [] && l.cursor == Start
    ensures Next(l) == (None, l)
  {
    List([], Start)
  }

  /** `LinkedList::append`: the value goes after the last element; the
      cursor keeps its cell. */
  function Append<T>(l: List<T>, v: T): (r: List<T>)
    requires WellFormed(l)
    ensures WellFormed(r)
    ensures |r.contents| == |l.contents| + 1
    ensures r.contents[..|l.contents|] == l.contents && r.contents[|l.contents|] == v
  {
    List(l.contents + [v], l.cursor)
  }

  /** `LinkedList::push`: the value becomes the new head; every cell the
      cursor could point at moves one place back. */
  function Push<T>(l: List<T>, v: T): (r: List<T>)
    requires WellFormed(l)
    ensures WellFormed(r)
    ensures |r.contents| == |l.contents| + 1
    ensures r.contents[0] == v && r.contents[1..] == l.contents
  {
    match l.cursor
    case Start => List([v] + l.contents, Start)
    case At(k) => List([v] + l.contents, At(k + 1))
  }

  /** `Iterator::next`: the element under the cursor, moving on; at the end
      marker it reports `None` and resets the cursor to the head. */
  function Next<T>(l: List<T>): (r: (Option<T>, List<T>))
    requires WellFormed(l)
    ensures WellFormed(r.1) && r.1.contents == l.contents
    ensures r.0.None? ==> r.1.cursor == Start
  {
    match l.cursor
    case Start =>
      if |l.contents| == 0 then (None, l) else (Some(l.contents[0]), l.(cursor := At(1)))
    case At(k) =>
      if k < |l.contents| then (Some(l.contents[k]), l.(cursor := At(k + 1)))
      else (None, l.(cursor := Start))
  }

  /** The results of `n` successive calls of `next`, and the list after
      them. */
  function Iterate<T>(l: List<T>, n: nat): (r: (seq<Option<T>>, List<T>))
    requires WellFormed(l)
    ensures |r.0| == n && WellFormed(r.1) && r.1.contents == l.contents
    decreases n
  {
    if n == 0 then ([], l)
    else
      var (x, l') := Next(l);
      var (xs, l'') := Iterate(l', n - 1);
      ([x] + xs, l'')
  }

  /** Each element of `s`, wrapped in `Some`. */
  function Somes<T>(s: seq<T>): (r: seq<Option<T>>)
    ensures |r| == |s| && forall i :: 0 <= i < |s| ==> r[i] == Some(s[i])
  {
    seq(|s|, i requires 0 <= i < |s| => Some(s[i]))
  }

  /** One call of `next` followed by the remaining `n - 1`. */
  lemma IterateUnfold<T>(l: List<T>, n: nat)
    requires WellFormed(l) && n > 0
    ensures Iterate(l, n).0 == [Next(l).0] + Iterate(Next(l).1, n - 1).0
    ensures Iterate(l, n).1 == Iterate(Next(l).1, n - 1).1
  {
  }

  /** `Somes` splits at the first element. */
  lemma SomesCons<T>(s: seq<T>)
    requires |s| > 0
    ensures Somes(s) == [Some(s[0])] + Somes(s[1..])
  {
  }

  /** From cell `k` on, the iterator yields the remaining elements, then
      `None`, and is back at the head. */
  lemma {:induction false} IterateFrom<T>(l: List<T>, k: nat)
    requires WellFormed(l) && l.cursor == At(k)
    ensures Iterate(l, |l.contents| - k + 1).0 == Somes(l.contents[k..]) + [None]
    ensures Iterate(l, |l.contents| - k + 1).1.cursor == Start
    decreases |l.contents| - k
  {
    var n := |l.contents| - k + 1;
    IterateUnfold(l, n);
    if k < |l.contents| {
      var l' := l.(cursor := At(k + 1));
      assert Next(l) == (Some(l.contents[k]), l');
      assert Iterate(l', n - 1).0 == Somes(l.contents[k + 1..]) + [None]
        && Iterate(l', n - 1).1.cursor == Start
      by {
        IterateFrom(l', k + 1);
      }
      assert Somes(l.contents[k..]) == [Some(l.contents[k])] + Somes(l.contents[k + 1..]) by {
        SomesCons(l.contents[k..]);
        assert l.contents[k..][1..] == l.contents[k + 1..];
      }
    } else {
      assert Next(l) == (None, l.(cursor := Start));
    }
  }

  /** A full pass from the head: `|contents| + 1` calls yield the contents
      head to tail and then `None`, and leave the cursor at the head, so
      the next pass yields the same again. */
  lemma {:induction false} FullPass<T>(l: List<T>)
    requires WellFormed(l) && l.cursor == Start
    ensures Iterate(l, |l.contents| + 1).0 == Somes(l.contents) + [None]
    ensures Iterate(l, |l.contents| + 1).1 == l
  {
    var n := |l.contents| + 1;
    IterateUnfold(l, n);
    if |l.contents| == 0 {
      assert Next(l) == (None, l);
    } else {
      var l' := l.(cursor := At(1));
      assert Next(l) == (Some(l.contents[0]), l');
      assert Iterate(l', n - 1).0 == Somes(l.contents[1..]) + [None]
        && Iterate(l', n - 1).1.cursor == Start
      by {
        IterateFrom(l', 1);
      }
      SomesCons(l.contents);
    }
  }

  /** The source's unit test: append 10, 12, 13, push 0, 1; the iterator
      yields 1, 0, 10, 12, 13, and then `None`. */
  lemma IterationExample()
    ensures Iterate(Push(Push(Append(Append(Append(New(), 10), 12), 13), 0), 1), 6).0
      == [Some(1), Some(0), Some(10), Some(12), Some(13), None]
  {
    var l := Push(Push(Append(Append(Append(New(), 10), 12), 13), 0), 1);
    assert l.contents == [1, 0, 10, 12, 13];
    FullPass(l);
  }
}

/** The linked list as the source builds it: shared, mutable cells each
    holding a node or the end-of-list marker, with the iterator's cursor as
    an optional reference to a cell. Each operation is shown to act on the
    contents and cursor exactly as the value model in `ListModel` does. */
module LinkedLists {
  import opened Wrappers
  import ListModel

  /** A node: a value and the cell of the rest of the list, or the end
      marker. */
  datatype LLNode<T> = Node(value: T, next: Cell<T>) | EOL

  /** A shared, mutable cell holding one node (`Rc<RefCell<LLNode<T>>>`). */
  class Cell<T> {
    var node: LLNode<T>

    constructor (n: LLNode<T>)
      ensures node == n
    {
      node := n;
    }
  }

  class LinkedList<T> {
    var head: Cell<T>
    var current: Option<Cell<T>>

    /** The values head to tail, the chain of cells holding them (the last
        cell holds the end marker), and the cursor as a position. */
    ghost var contents: seq<T>
    ghost var cells: seq<Cell<T>>
    ghost var cursor: ListModel.Cursor
    ghost var Repr: set<object>

    ghost predicate Valid()
      reads this, Repr
    {
      && this in Repr
      && |cells| == |contents| + 1
      && (forall i :: 0 <= i < |cells| ==> cells[i] in Repr)
      && cells[0] == head
      && (forall i :: 0 <= i < |contents| ==> cells[i].node == Node(contents[i], cells[i + 1]))
      && cells[|contents|].node == EOL
      && (cursor.Start? <==> current.None?)
      && (cursor.At? ==> 1 <= cursor.index <= |contents| && current == Some(cells[cursor.index]))
    }

    /** The list this object represents. */
    ghost function Model(): ListModel.List<T>
      reads this
    {
      ListModel.List(contents, cursor)
    }

    /** `LinkedList::new`: the head is the end marker, no cursor. */
    constructor ()
      ensures Valid() && fresh(Repr)
      ensures Model() == ListModel.New()
    {
      var eol := new Cell<T>(EOL);
      head := eol;
      current := None;
      contents := [];
      cells := [eol];
      cursor := ListModel.Start;
      new;
      Repr := {this, eol};
    }

    /** `LinkedList::append`: an empty list gets a fresh head; otherwise
        the walk from the head's successor finds the end-marker cell and
        overwrites it in place with the new node. */
    method Append(v: T)
      requires Valid()
      modifies Repr
      ensures Valid() && fresh(Repr - old(Repr))
      ensures ListModel.WellFormed(old(Model()))
      ensures Model() == ListModel.Append(old(Model()), v)
    {
      assert |contents| == 0 || head.node == Node(contents[0], cells[1]);
      match head.node
      case EOL =>
        var eol := new Cell<T>(EOL);
        head := new Cell<T>(Node(v, eol));
        contents := [v];
        cells := [head, eol];
        Repr := Repr + {head, eol};
      case Node(_, next) =>
        var last := next;
        ghost var k := 1;
        while last.node.Node?
          invariant 1 <= k <= |contents| && last == cells[k]
          invariant Valid()
          invariant k < |contents| ==> last.node == Node(contents[k], cells[k + 1])
          decreases |contents| - k
        {
          last := last.node.next;
          k := k + 1;
        }
        var eol := new Cell<T>(EOL);
        last.node := Node(v, eol);
        contents := contents + [v];
        cells := cells + [eol];
        Repr := Repr + {eol};
    }

    /** `LinkedList::push`: the new node becomes the head, pointing at the
        old head; the cursor keeps its cell, which is now one further on. */
    method Push(v: T)
      requires Valid()
      modifies Repr
      ensures Valid() && fresh(Repr - old(Repr))
      ensures ListModel.WellFormed(old(Model()))
      ensures Model() == ListModel.Push(old(Model()), v)
    {
      assert |contents| == 0 || head.node == Node(contents[0], cells[1]);
      match head.node
      case EOL =>
        var eol := new Cell<T>(EOL);
        head := new Cell<T>(Node(v, eol));
        contents := [v];
        cells := [head, eol];
        Repr := Repr + {head, eol};
      case Node(_, _) =>
        var h := new Cell<T>(Node(v, head));
        head := h;
        contents := [v] + contents;
        cells := [h] + cells;
        Repr := Repr + {h};
        if cursor.At? {
          cursor := ListModel.At(cursor.index + 1);
        }
    }

    /** `Iterator::next`. */
    method Next() returns (r: Option<T>)
      requires Valid()
      modifies this
      ensures Valid() && Repr == old(Repr)
      ensures ListModel.WellFormed(old(Model()))
      ensures (r, Model()) == ListModel.Next(old(Model()))
    {
      match current {
        case Some(c) =>
          assert c == cells[cursor.index];
          assert cursor.index == |contents| || c.node == Node(contents[cursor.index], cells[cursor.index + 1]);
          match c.node {
            case Node(value, next) =>
              current := Some(next);
              cursor := ListModel.At(cursor.index + 1);
              r := Some(value);
            case EOL =>
              current := None;
              cursor := ListModel.Start;
              r := None;
          }
        case None =>
          assert |contents| == 0 || head.node == Node(contents[0], cells[1]);
          match head.node {
            case EOL =>
              r := None;
            case Node(value, next) =>
              current := Some(next);
              cursor := ListModel.At(1);
              r := Some(value);
          }
      }
    }
  }
}
