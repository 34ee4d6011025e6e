/** The shell's command list: a first-in first-out queue of token lists.
    Commands are appended at the tail and popped from the head; an empty
    token list is never stored. */
module Queue {

  class CommandQueue {
    /** The queued token lists, head first. */
    var entries: seq<seq<string>>

    /** No entry is an empty token list. */
    ghost predicate Valid()
      reads this
    {
      forall k :: 0 <= k < |entries| ==> entries[k] != []
    }

    constructor ()
      ensures Valid() && entries == []
    {
      entries := [];
    }

    predicate IsEmpty()
      reads this
    {
      entries == []
    }

    /** The command at the head of the queue. */
    function Head(): (cmd: seq<string>)
      reads this
      requires Valid() && entries != []
      ensures cmd != [] && cmd == entries[0]
    {
      entries[0]
    }

    /** Adds tokens at the tail; an empty token list is dropped. */
    method Append(tokens: seq<string>)
      requires Valid()
      modifies this
      ensures Valid()
      ensures entries == if tokens == [] then old(entries) else old(entries) + [tokens]
    {
      if tokens == [] {
        return;
      }
      entries := entries + [tokens];
    }

    /** Removes the head entry; reports whether there was one. */
    method Pop() returns (popped: bool)
      requires Valid()
      modifies this
      ensures Valid()
      ensures popped == (old(entries) != [])
      ensures entries == if popped then old(entries)[1..] else old(entries)
    {
      if entries != [] {
        entries := entries[1..];
        return true;
      }
      return false;
    }

    /** Pops until the queue is empty. */
    method Free()
      requires Valid()
      modifies this
      ensures Valid() && entries == []
    {
      var more := Pop();
      while more
        invariant Valid()
        invariant !more ==> entries == []
        decreases |entries|, more
      {
        more := Pop();
      }
    }
  }
}
