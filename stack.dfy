/** `sy._Stack` of `src/parse.js`: a stack kept in a list that `push` and `splice` update. */
module Stacks {
  import opened Results

  class Stack<T> {
    /** `this.stack`, bottom first. */
    var stack: seq<T>

    constructor ()
      ensures stack == []
    {
      stack := [];
    }

    function Length(): (n: nat)
      reads this
      ensures n == |stack|
    {
      |stack|
    }

    /** `push`: appends on top and returns the new length, as `Array.prototype.push` does. */
    method Push(item: T) returns (n: nat)
      modifies this
      ensures stack == old(stack) + [item]
      ensures n == |stack|
    {
      stack := stack + [item];
      n := |stack|;
    }

    /** `pop`: `splice(-1, 1)[0]`, which on an empty stack removes nothing and gives `undefined`. */
    method Pop() returns (r: Option<T>)
      modifies this
      ensures old(stack) == [] ==> r == None && stack == []
      ensures old(stack) != [] ==> r == Some(old(stack)[|old(stack)| - 1]) && stack == old(stack)[..|old(stack)| - 1]
    {
      if stack == [] {
        r := None;
      } else {
        r := Some(stack[|stack| - 1]);
        stack := stack[..|stack| - 1];
      }
    }

    /** `peek`: the top element, `undefined` on an empty stack; it reads and changes nothing. */
    function Peek(): (r: Option<T>)
      reads this
      ensures r.Some? <==> stack != []
      ensures r.Some? ==> r.value == stack[|stack| - 1]
    {
      if stack == [] then None else Some(stack[|stack| - 1])
    }
  }

  /** A `push` followed by a `pop` gives back the pushed item and leaves the stack as it was. */
  method PushThenPop<T>(s: Stack<T>, item: T) returns (r: Option<T>)
    modifies s
    ensures r == Some(item) && s.stack == old(s.stack)
  {
    var _ := s.Push(item);
    r := s.Pop();
  }
}
