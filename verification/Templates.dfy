/** The rewrite of "> >" to ">>" in demangled names. */
module Templates {

  const NUL: char := '\0'

  /** The C string in an array: everything before the first NUL. */
  ghost function CString(a: seq<char>): (s: seq<char>)
    ensures |s| <= |a| && s == a[..|s|] && NUL !in s
    ensures |s| < |a| ==> a[|s|] == NUL
  {
    if a == [] || a[0] == NUL then [] else [a[0]] + CString(a[1..])
  }

  predicate Terminated(a: seq<char>) {
    NUL in a
  }

  /** Position `i` holds a space between two closing brackets. */
  predicate Redundant(s: seq<char>, i: nat) {
    0 < i && i + 1 < |s| && s[i - 1] == '>' && s[i] == ' ' && s[i + 1] == '>'
  }

  ghost predicate HasRedundant(s: seq<char>) {
    exists i: nat :: Redundant(s, i)
  }

  /** The first `n` characters without the redundant spaces. */
  function Keep(s: seq<char>, n: nat): (r: seq<char>)
    requires n <= |s|
    ensures |r| <= n
  {
    if n == 0 then []
    else Keep(s, n - 1) + if Redundant(s, n - 1) then [] else [s[n - 1]]
  }

  /** The string with exactly the redundant spaces removed. */
  function Fixup(s: seq<char>): (r: seq<char>)
    ensures |r| <= |s|
  {
    Keep(s, |s|)
  }

  /** The string ends in a closing bracket and a space. */
  predicate EndsOpen(s: seq<char>) {
    |s| >= 2 && s[|s| - 2] == '>' && s[|s| - 1] == ' '
  }

  lemma {:induction false} KeepPrefix(t: seq<char>, c: char, n: nat)
    requires n < |t|
    ensures Keep(t + [c], n) == Keep(t, n)
  {
    if n > 0 {
      KeepPrefix(t, c, n - 1);
    }
  }

  /** One more character: a closing bracket takes the place of a space after a closing bracket. */
  lemma FixupSnoc(t: seq<char>, c: char)
    ensures EndsOpen(t) && c == '>' ==> Fixup(t) != [] && Fixup(t + [c]) == Fixup(t)[..|Fixup(t)| - 1] + [c]
    ensures !(EndsOpen(t) && c == '>') ==> Fixup(t + [c]) == Fixup(t) + [c]
  {
    var s := t + [c];
    if t == [] {
      assert Keep(s, 0) == [];
    } else {
      var n := |t| - 1;
      KeepPrefix(t, c, n);
      assert Fixup(t) == Keep(t, n) + [t[n]];
      assert Redundant(s, n) <==> EndsOpen(t) && c == '>';
      assert Fixup(s) == Keep(s, n + 1) + [c];
    }
  }

  lemma {:induction false} FixupEnds(t: seq<char>)
    ensures t != [] ==> Fixup(t) != [] && Fixup(t)[|Fixup(t)| - 1] == t[|t| - 1]
    ensures EndsOpen(Fixup(t)) <==> EndsOpen(t)
    ensures !HasRedundant(Fixup(t))
  {
    if t != [] {
      var n := |t| - 1;
      var init, c := t[..n], t[n];
      assert t == init + [c];
      FixupEnds(init);
      FixupSnoc(init, c);
      NoNewRedundant(Fixup(init), Fixup(t), c);
    }
  }

  lemma NoNewRedundant(before: seq<char>, after: seq<char>, c: char)
    requires !HasRedundant(before)
    requires after == if EndsOpen(before) && c == '>' then before[..|before| - 1] + [c] else before + [c]
    ensures !HasRedundant(after)
  {
    forall i: nat | Redundant(after, i)
      ensures Redundant(before, i)
    {
    }
  }

  /** The rewritten string holds no "> >", overlapping runs included. */
  lemma NothingLeft(s: seq<char>)
    ensures !HasRedundant(Fixup(s))
  {
    FixupEnds(s);
  }

  lemma {:induction false} KeepAll(s: seq<char>, n: nat)
    requires n <= |s| && forall i: nat :: i < n ==> !Redundant(s, i)
    ensures Keep(s, n) == s[..n]
  {
    if n > 0 {
      KeepAll(s, n - 1);
    }
  }

  /** A string without "> >" is left alone. */
  lemma Untouched(s: seq<char>)
    requires !HasRedundant(s)
    ensures Fixup(s) == s
  {
    KeepAll(s, |s|);
    assert s[..|s|] == s;
  }

  lemma Idempotent(s: seq<char>)
    ensures Fixup(Fixup(s)) == Fixup(s)
  {
    NothingLeft(s);
    Untouched(Fixup(s));
  }

  /** One rewrite of a "> >" to ">>", wherever it stands. */
  function RewriteAt(s: seq<char>, i: nat): seq<char>
    requires Redundant(s, i)
  {
    s[..i] + s[i + 1..]
  }

  lemma RewrittenAt(s: seq<char>, i: nat, k: nat)
    requires Redundant(s, i) && k + 1 < |s|
    ensures |RewriteAt(s, i)| == |s| - 1
    ensures RewriteAt(s, i)[k] == s[if k < i then k else k + 1]
    ensures Redundant(RewriteAt(s, i), k) <==> Redundant(s, if k < i then k else k + 1)
  {}

  lemma KeepNext(s: seq<char>, n: nat)
    requires n < |s|
    ensures Keep(s, n + 1) == Keep(s, n) + if Redundant(s, n) then [] else [s[n]]
  {}

  lemma {:induction false} KeepRewritten(s: seq<char>, i: nat, n: nat)
    requires Redundant(s, i) && n < |s|
    ensures Keep(RewriteAt(s, i), n) == Keep(s, if n <= i then n else n + 1)
  {
    hide RewriteAt, Redundant, Keep;
    if n == 0 {
      assert Keep(RewriteAt(s, i), 0) == [] == Keep(s, 0);
    } else {
      var t := RewriteAt(s, i);
      RewrittenAt(s, i, n - 1);
      KeepRewritten(s, i, n - 1);
      KeepNext(t, n - 1);
      if n <= i {
        KeepNext(s, n - 1);
      } else if n == i + 1 {
        KeepNext(s, i);
        assert Keep(s, n) == Keep(s, n - 1);
        KeepNext(s, n);
      } else {
        KeepNext(s, n);
      }
    }
  }

  /** Rewriting any one "> >" first does not change the result, and exactly the strings without
      one are their own result. */
  lemma NormalForm(s: seq<char>, i: nat)
    ensures Redundant(s, i) ==> Fixup(RewriteAt(s, i)) == Fixup(s) && |RewriteAt(s, i)| < |s|
    ensures !HasRedundant(s) <==> Fixup(s) == s
  {
    if Redundant(s, i) {
      KeepRewritten(s, i, |s| - 1);
    }
    if HasRedundant(s) {
      NothingLeft(s);
    } else {
      Untouched(s);
    }
  }

  /** Rewrites at the given positions in turn, `steps` ending early where nothing is redundant. */
  function RewriteSteps(s: seq<char>, steps: seq<nat>): seq<char> {
    if steps == [] || !Redundant(s, steps[0]) then s
    else RewriteSteps(RewriteAt(s, steps[0]), steps[1..])
  }

  /** Whatever order the rewrites are made in, a string that holds no "> >" any more is the result. */
  lemma {:induction false} AnyOrder(s: seq<char>, steps: seq<nat>)
    ensures Fixup(RewriteSteps(s, steps)) == Fixup(s)
    ensures !HasRedundant(RewriteSteps(s, steps)) ==> RewriteSteps(s, steps) == Fixup(s)
  {
    if steps != [] && Redundant(s, steps[0]) {
      NormalForm(s, steps[0]);
      AnyOrder(RewriteAt(s, steps[0]), steps[1..]);
    } else {
      NormalForm(s, 0);
    }
  }

  lemma FixupShortens(s: seq<char>)
    requires HasRedundant(s)
    ensures |Fixup(s)| < |s|
  {
    var i: nat :| Redundant(s, i);
    NormalForm(s, i);
  }

  lemma {:induction false} KeepNoNul(s: seq<char>, n: nat)
    requires n <= |s| && NUL !in s
    ensures NUL !in Keep(s, n)
  {
    if n > 0 {
      KeepNoNul(s, n - 1);
    }
  }

  lemma FixupKeepsText(s: seq<char>)
    requires NUL !in s
    ensures NUL !in Fixup(s)
  {
    KeepNoNul(s, |s|);
  }

  lemma CStringIs(a: seq<char>, n: nat)
    requires n < |a| && NUL !in a[..n] && a[n] == NUL
    ensures CString(a) == a[..n] && Terminated(a)
  {}

  /** `strstr(s, "> >")`. */
  method FindRedundant(s: array<char>, len: nat) returns (found: bool)
    requires len < s.Length
    ensures found <==> HasRedundant(s[..len])
  {
    for i := 0 to len
      invariant forall k: nat :: k < i ==> !Redundant(s[..len], k)
    {
      if 0 < i && i + 1 < len && s[i - 1] == '>' && s[i] == ' ' && s[i + 1] == '>' {
        assert Redundant(s[..len], i);
        return true;
      }
    }
    return false;
  }

  method StrLen(s: array<char>) returns (len: nat)
    requires Terminated(s[..])
    ensures len < s.Length && s[..len] == CString(s[..]) && s[len] == NUL
  {
    len := 0;
    ghost var c := CString(s[..]);
    assert |c| < s.Length;
    while s[len] != NUL
      invariant len <= |c|
      decreases |c| - len
    {
      assert len < |c|;
      len := len + 1;
    }
    assert NUL in s[..len + 1];
  }

  /** The write cursor steps back over a space when the bracket after it arrives.  The buffer is
      as long as the input without its terminator. */
  method FixupTemplates(strIn: array<char>) returns (strOut: array<char>)
    requires Terminated(strIn[..])
    ensures Terminated(strOut[..])
    ensures CString(strOut[..]) == Fixup(CString(strIn[..]))
    ensures if HasRedundant(CString(strIn[..])) then fresh(strOut) && strOut.Length == |CString(strIn[..])|
            else strOut == strIn
  {
    hide Redundant, Keep, Fixup, CString;
    var lenIn := StrLen(strIn);
    ghost var s := strIn[..lenIn];
    var found := FindRedundant(strIn, lenIn);
    if !found {
      Untouched(s);
      return strIn;
    }
    FixupShortens(s);
    strOut := new char[lenIn];
    var p := 0;
    assert strOut[..0] == [] == Fixup(s[..0]);
    for i := 0 to lenIn
      invariant 0 <= p <= i && strOut[..p] == Fixup(s[..i])
    {
      assert s[..i + 1] == s[..i] + [s[i]];
      FixupSnoc(s[..i], s[i]);
      if i >= 2 && strIn[i] == '>' && strIn[i - 1] == ' ' && strIn[i - 2] == '>' {
        p := p - 1;
      }
      strOut[p] := strIn[i];
      p := p + 1;
    }
    assert s[..lenIn] == s;
    strOut[p] := strIn[lenIn];
    FixupKeepsText(s);
    CStringIs(strOut[..], p);
  }
}
