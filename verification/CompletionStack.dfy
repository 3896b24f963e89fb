/**
 The memory side of the completion hand-over (src/main.c): connections linked through their own
 next pointers, pushed by the log writer and detached and reversed by the worker.
 */
module CompletionStack {
  import opened Sequences

  class Conn {
    var next: Conn?

    constructor ()
      ensures next == null
    {
      next := null;
    }
  }

  ghost predicate Linked(list: seq<Conn>, i: nat)
    requires i < |list|
    reads list[i]
  {
    list[i].next == (if i + 1 < |list| then list[i + 1] else null)
  }

  /** `first` leads through the next pointers to exactly the connections of `list`. */
  ghost predicate IsList(first: Conn?, list: seq<Conn>)
    reads list
  {
    && first == (if list == [] then null else list[0])
    && (forall i :: 0 <= i < |list| ==> Linked(list, i))
    && (forall i, j :: 0 <= i < j < |list| ==> list[i] != list[j])
  }

  /** Pushing in front of the old top. */
  method Push(c: Conn, top: Conn?, ghost list: seq<Conn>)
    requires IsList(top, list) && c !in list
    modifies c
    ensures IsList(c, [c] + list)
  {
    c.next := top;
    ghost var longer := [c] + list;
    forall i | 0 <= i < |longer|
      ensures Linked(longer, i)
    {
      if i > 0 {
        assert longer[i] == list[i - 1] && Linked(list, i - 1);
      }
    }
  }

  /** Moves the top of the detached stack to the front of the restored list. */
  method Turn(stack: Conn, completed: Conn?, ghost rest: seq<Conn>, ghost done: seq<Conn>) returns (next: Conn?)
    requires IsList(stack, rest) && IsList(completed, done) && stack !in done
    modifies stack
    ensures IsList(next, rest[1..]) && IsList(stack, [stack] + done)
  {
    assert Linked(rest, 0) && rest[0] == stack;
    next := stack.next;
    forall i | 0 <= i < |rest| - 1
      ensures Linked(rest[1..], i)
    {
      assert Linked(rest, i + 1);
    }
    Push(stack, completed, done);
  }

  /** The detached stack, last pushed first, becomes a list in completion order, by relinking alone. */
  method Restore(top: Conn?, ghost list: seq<Conn>) returns (completed: Conn?)
    requires IsList(top, list)
    modifies list
    ensures IsList(completed, Rev(list))
  {
    var stack := top;
    completed := null;
    ghost var k := 0;
    assert list[..0] == [] && Rev(list[..0]) == [] && list[0..] == list;
    while stack != null
      invariant k <= |list|
      invariant IsList(stack, list[k..])
      invariant IsList(completed, Rev(list[..k]))
      decreases |list| - k
    {
      ReverseNext(list, k);
      var next := Turn(stack, completed, list[k..], Rev(list[..k]));
      completed, stack := stack, next;
      k := k + 1;
    }
    assert k == |list| && list[..k] == list;
  }

  lemma ReverseNext(list: seq<Conn>, k: nat)
    requires k < |list|
    requires forall i, j :: 0 <= i < j < |list| ==> list[i] != list[j]
    ensures Rev(list[..k + 1]) == [list[k]] + Rev(list[..k])
    ensures list[k] !in Rev(list[..k])
    ensures list[k..][1..] == list[k + 1..]
  {
    hide Rev;
    assert list[..k + 1] == list[..k] + [list[k]];
    RevAppend(list[..k], list[k]);
    RevIn(list[..k], list[k]);
  }
}
