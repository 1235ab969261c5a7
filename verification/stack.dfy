/** The `Vec`-backed stack: the top is the last element of the vector. */
module Stacks {
  import opened Wrappers

  /** `Stack<T>`; `inner` lists the elements bottom to top. */
  datatype Stack<T> = Stack(inner: seq<T>)

  /** `Stack::from`: the vector's last element is the top. */
  function From<T>(v: seq<T>): (s: Stack<T>)
    ensures Elements(s) == v
    ensures |v| > 0 ==> Peak(s) == Some(v[|v| - 1])
    ensures |v| == 0 <==> IsEmpty(s)
  {
    Stack(v)
  }

  /** The elements, bottom to top. */
  function Elements<T>(s: Stack<T>): seq<T>
  {
    s.inner
  }

  /** `Stack::peak`: the top element, `None` exactly when the stack is
      empty. */
  function Peak<T>(s: Stack<T>): (r: Option<T>)
    ensures r.None? <==> |Elements(s)| == 0
    ensures r.Some? ==> r.value == Elements(s)[|Elements(s)| - 1]
  {
    if |s.inner| == 0 then None else Some(s.inner[|s.inner| - 1])
  }

  /** `Stack::is_empty`: the same question as whether `Peak` finds
      nothing. */
  function IsEmpty<T>(s: Stack<T>): (b: bool)
    ensures b <==> Peak(s).None?
    ensures b <==> |Elements(s)| == 0
  {
    |s.inner| == 0
  }

  /** `Stack::pop`: drops the top element and keeps the rest in order; on
      an empty stack it does nothing. */
  function Pop<T>(s: Stack<T>): (r: Stack<T>)
    ensures IsEmpty(s) ==> r == s
    ensures !IsEmpty(s) ==> Elements(r) + [Peak(s).value] == Elements(s)
  {
    if |s.inner| == 0 then s else Stack(s.inner[..|s.inner| - 1])
  }

  /** `Stack::push`: the pushed value becomes the top, there is exactly one
      more element, and popping it gives back the old stack. */
  function Push<T>(s: Stack<T>, x: T): (r: Stack<T>)
    ensures Peak(r) == Some(x)
    ensures |Elements(r)| == |Elements(s)| + 1
    ensures Pop(r) == s
  {
    assert (s.inner + [x])[..|s.inner|] == s.inner;
    Stack(s.inner + [x])
  }

  /** The source's unit test: from [1, 2, 3, 4], push 5, push 6, pop; the
      top is 5. */
  lemma PushPopExample()
    ensures Peak(Pop(Push(Push(From([1, 2, 3, 4]), 5), 6))) == Some(5)
  {
  }
}
