/** The bracket matcher of the editor (src/lib/paren-balancer.ts): given a text that ends in a
    closing bracket, find the index of the opening bracket that matches it. */
module ParenBalancer {
  import opened Common

  predicate IsCloser(c: char) { c == ')' || c == ']' }
  predicate IsOpener(c: char) { c == '(' || c == '[' }

  /** The closer that pairs with an opener. */
  function CloserOf(c: char): char
  {
    if c == '(' then ')' else ']'
  }

  /** Reading `c` right to left against the closers still waiting for their opener (the last
      element is the innermost): a closer waits, an opener must pair with the innermost waiting
      closer, and a mismatch or an opener with nothing waiting ends the reading. */
  function PendingStep(c: char, p: Option<seq<char>>): Option<seq<char>>
  {
    if p.None? then None
    else if IsCloser(c) then Some(p.value + [c])
    else if IsOpener(c) then
      if p.value != [] && p.value[|p.value| - 1] == CloserOf(c) then Some(p.value[..|p.value| - 1])
      else None
    else p
  }

  /** The closers of `u` without an opener inside `u`, innermost last, when every opener of `u`
      pairs with a closer of its own kind after it; None otherwise. */
  function Pending(u: string): (p: Option<seq<char>>)
    ensures p.Some? ==> forall k :: 0 <= k < |p.value| ==> IsCloser(p.value[k])
  {
    if u == [] then Some([]) else PendingStep(u[0], Pending(u[1..]))
  }

  /** `t[i]` opens the bracket that closes `t`: it is an opener of the last character's kind
      and everything strictly between the two is balanced. */
  predicate OpensLast(t: string, i: int)
    requires |t| > 0
  {
    0 <= i < |t| - 1 && IsOpener(t[i]) && CloserOf(t[i]) == t[|t| - 1] && Pending(t[i + 1..|t| - 1]) == Some([])
  }

  /** Once a suffix is unbalanced, no longer suffix can recover. */
  lemma {:induction false} PendingNoneAbsorbs(v: string, u: string)
    requires Pending(u) == None
    ensures Pending(v + u) == None
    decreases |v|
  {
    if v != [] {
      assert (v + u)[1..] == v[1..] + u;
      PendingNoneAbsorbs(v[1..], u);
    } else {
      assert v + u == u;
    }
  }

  /** At most one index opens the final bracket. */
  lemma OpensLastUnique(t: string, i: int, j: int)
    requires |t| > 0 && OpensLast(t, i) && OpensLast(t, j)
    ensures i == j
  {
    if j < i {
      OpensLastExcludesEarlier(t, i, j);
    } else if i < j {
      OpensLastExcludesEarlier(t, j, i);
    }
  }

  lemma OpensLastExcludesEarlier(t: string, i: int, j: int)
    requires |t| > 0 && OpensLast(t, i) && 0 <= j < i
    ensures !OpensLast(t, j)
  {
    var n := |t|;
    assert t[i..n - 1][1..] == t[i + 1..n - 1];
    assert Pending(t[i..n - 1]) == None;
    assert t[j + 1..n - 1] == t[j + 1..i] + t[i..n - 1];
    PendingNoneAbsorbs(t[j + 1..i], t[i..n - 1]);
  }

  /** `balanceParens`: Err when the text does not end in a closing bracket, Ok(Some(i)) when `i`
      opens that bracket, Ok(None) (the source's `false`) when no index does. */
  method BalanceParens(t: string) returns (r: Result<Option<nat>>)
    ensures r.Err? <==> t == [] || !IsCloser(t[|t| - 1])
    ensures r.Err? ==> r.msg == "input must end in a closing bracket"
    ensures r.Ok? && r.value.Some? ==> OpensLast(t, r.value.value)
    ensures r.Ok? && r.value.None? ==> forall i :: 0 <= i < |t| - 1 ==> !OpensLast(t, i)
  {
    var n := |t|;
    if n == 0 || !IsCloser(t[n - 1]) {
      return Err("input must end in a closing bracket");
    }
    var closer := t[n - 1];
    var stack: seq<char> := [];
    var i := n - 2;
    while i > -1
      invariant -1 <= i <= n - 2
      invariant Pending(t[i + 1..n - 1]) == Some(stack)
      invariant forall j :: i < j < n - 1 ==> !OpensLast(t, j)
      decreases i + 1
    {
      var p := t[i];
      assert t[i..n - 1][1..] == t[i + 1..n - 1];
      if IsCloser(p) {
        stack := stack + [p];
      }
      if IsOpener(p) {
        var c := CloserOf(p);
        if stack == [] && closer == c {
          return Ok(Some(i));
        }
        if stack == [] || stack[|stack| - 1] != c {
          forall j | 0 <= j < i
            ensures !OpensLast(t, j)
          {
            assert t[j + 1..n - 1] == t[j + 1..i] + t[i..n - 1];
            PendingNoneAbsorbs(t[j + 1..i], t[i..n - 1]);
          }
          return Ok(None);
        }
        stack := stack[..|stack| - 1];
      }
      i := i - 1;
    }
    return Ok(None);
  }

  /** Two of the documented cases: in `(foo (bar )` the bracket at 5 closes the text, and in
      `(cond [( )]` the square bracket at 6 is matched past the inner parentheses. */
  lemma BalancerExamples()
    ensures OpensLast("(foo (bar )", 5)
    ensures OpensLast("(cond [( )]", 6)
  {
    assert "(foo (bar )"[6..10] == "bar ";
    assert " "[1..] == [];
    assert Pending(" ") == Some([]);
    assert Pending("r ") == Some([]);
    assert "r "[1..] == " ";
    assert "ar "[1..] == "r ";
    assert "bar "[1..] == "ar ";
    assert Pending("ar ") == Some([]);
    assert Pending("bar ") == Some([]);
    assert "(cond [( )]"[7..10] == "( )";
    assert ")"[1..] == [];
    assert Pending(")") == Some([] + [')']);
    assert [] + [')'] == [')'];
    assert " )"[0] == ' ' && " )"[1..] == ")";
    assert Pending(" )") == Some([')']);
    assert "( )"[1..] == " )";
    assert Pending("( )") == Some([]);
  }
}
