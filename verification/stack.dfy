/** The reader's stack of chunk end positions, a slice of ints whose last
    element is the top. */
module IntStack {

  type Stack = seq<int>

  /** push: the stack with v added on top. */
  function Push(s: Stack, v: int): (r: Stack)
    ensures |r| == |s| + 1 && Top(r) == v
    ensures r[..|s|] == s
  {
    s + [v]
  }

  /** pop: the stack without its top, and the top. The source panics on an
      empty stack; the model requires a non-empty one. */
  function Pop(s: Stack): (r: (Stack, int))
    requires |s| > 0
    ensures |r.0| == |s| - 1 && r.1 == Top(s)
    ensures r.0 + [r.1] == s
  {
    (s[..|s| - 1], s[|s| - 1])
  }

  /** top: the last pushed element, left in place. */
  function Top(s: Stack): int
    requires |s| > 0
  {
    s[|s| - 1]
  }

  /** Popping what was just pushed gives back the element and the stack. */
  lemma PopPush(s: Stack, v: int)
    ensures Pop(Push(s, v)) == (s, v)
  {
    assert Push(s, v)[..|s|] == s;
  }
}
