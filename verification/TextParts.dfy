/** Cutting a text at a separator. */
module TextParts {
  import opened Wrappers

  /** The parts before and after the first `c`. */
  function SplitOnce(s: string, c: char): Option<(string, string)> {
    if s == [] then None
    else if s[0] == c then Some(([], s[1..]))
    else match SplitOnce(s[1..], c)
         case None => None
         case Some((a, b)) => Some(([s[0]] + a, b))
  }

  lemma {:induction false} SplitAtFirst(a: string, b: string, c: char)
    requires c !in a
    ensures SplitOnce(a + ([c] + b), c) == Some((a, b))
  {
    if a == [] {
      assert a + ([c] + b) == [c] + b;
    } else {
      assert (a + ([c] + b))[1..] == a[1..] + ([c] + b);
      SplitAtFirst(a[1..], b, c);
      assert a == [a[0]] + a[1..];
    }
  }

  lemma {:induction false} SplitJoins(s: string, c: char)
    ensures match SplitOnce(s, c)
            case None => c !in s
            case Some((a, b)) => s == a + ([c] + b) && c !in a
  {
    if s != [] && s[0] != c {
      SplitJoins(s[1..], c);
      assert s == [s[0]] + s[1..];
      match SplitOnce(s[1..], c)
      case None =>
      case Some((a, b)) => assert [s[0]] + (a + ([c] + b)) == ([s[0]] + a) + ([c] + b);
    }
  }
}
