/** pmr2ui (backend.py): a user interface object that, while an error buffer
    is pushed, collects the warnings written to it instead of printing them. */
module Pmr2Ui {
  import opened Failures

  class Ui {
    /** The stack of error buffers, most recent last */
    var errors: seq<seq<string>>
    /** What reached the underlying write: the text printed when no buffer is open */
    var written: seq<string>

    constructor ()
      ensures errors == [] && written == []
    {
      errors := [];
      written := [];
    }

    /** write_err(*args): extend the top buffer with the arguments, or write
        them when no buffer is open */
    method WriteErr(args: seq<string>)
      modifies this
      ensures (errors, written) == Sink(old(errors), old(written), args)
    {
      if errors != [] {
        errors := Buffered(errors, args);
      } else {
        written := written + args;
      }
    }

    /** push_errors: open a new, empty buffer */
    method PushErrors()
      modifies this
      ensures errors == old(errors) + [[]]
      ensures written == old(written)
    {
      errors := errors + [[]];
    }

    /** pop_errors: close the most recent buffer and hand back what it collected;
        popping with no buffer open is list.pop's IndexError */
    method PopErrors() returns (r: Result<seq<string>>)
      modifies this
      ensures old(errors) == [] ==> r == Err(IndexError("pop from empty list")) && errors == old(errors)
      ensures old(errors) != [] ==>
        r == Ok(old(errors)[|old(errors)| - 1]) && errors == old(errors)[..|old(errors)| - 1]
      ensures written == old(written)
    {
      if errors == [] {
        return Err(IndexError("pop from empty list"));
      }
      r := Ok(errors[|errors| - 1]);
      errors := errors[..|errors| - 1];
    }
  }

  /** The stack after args are appended to its top buffer */
  function Buffered(stack: seq<seq<string>>, args: seq<string>): (r: seq<seq<string>>)
    requires stack != []
    ensures |r| == |stack|
    ensures r[..|r| - 1] == stack[..|stack| - 1]
    ensures r[|r| - 1] == stack[|stack| - 1] + args
  {
    stack[..|stack| - 1] + [stack[|stack| - 1] + args]
  }

  /** Where write_err sends args: into the top buffer when one is open, out
      through write otherwise. */
  function Sink(stack: seq<seq<string>>, out: seq<string>, args: seq<string>): (r: (seq<seq<string>>, seq<string>))
    ensures stack != [] ==> r.1 == out && |r.0| == |stack| && r.0[..|stack| - 1] == stack[..|stack| - 1]
    ensures stack == [] ==> r.0 == [] && r.1 == out + args
  {
    if stack != [] then (Buffered(stack, args), out) else (stack, out + args)
  }

  /** Writing two batches in turn is writing them together. */
  lemma BufferedTwice(stack: seq<seq<string>>, a: seq<string>, b: seq<string>)
    requires stack != []
    ensures Buffered(Buffered(stack, a), b) == Buffered(stack, a + b)
  {
    var s1 := Buffered(stack, a);
    assert s1[..|s1| - 1] == stack[..|stack| - 1];
    assert stack[|stack| - 1] + a + b == stack[|stack| - 1] + (a + b);
  }

  lemma SinkTwice(stack: seq<seq<string>>, out: seq<string>, a: seq<string>, b: seq<string>)
    ensures var s := Sink(stack, out, a); Sink(s.0, s.1, b) == Sink(stack, out, a + b)
  {
    if stack != [] {
      BufferedTwice(stack, a, b);
    } else {
      assert out + a + b == out + (a + b);
    }
  }

  /** Writing nothing changes nothing. */
  lemma SinkNothing(stack: seq<seq<string>>, out: seq<string>)
    ensures Sink(stack, out, []) == (stack, out)
  {
    if stack != [] {
      var s := Buffered(stack, []);
      assert s[|s| - 1] == stack[|stack| - 1];
      assert s == stack;
    } else {
      assert out + [] == out;
    }
  }

  /** A buffer pushed, written to and popped returns exactly what was written,
      and leaves the stack as it found it. */
  lemma PushWritePop(stack: seq<seq<string>>, args: seq<string>)
    ensures var s := Buffered(stack + [[]], args);
      s[|s| - 1] == args && s[..|s| - 1] == stack
  {
    var s := Buffered(stack + [[]], args);
    assert (stack + [[]])[..|stack|] == stack;
  }
}
