/** `remove_paren_brack`: two passes of Python's `re.sub` that delete
    parenthesised and bracketed text. A pattern `\o[^t]*\c` (open char `o`,
    stop char `t`, close char `c`) is matched leftmost first; at an `o` the
    greedy `[^t]*` runs up to the first `t`, and the match ends at the last
    `c` it can reach. The bracket pass as written stops at `)` rather than
    at `]`. */
module Brackets {
  import opened Wrappers

  /** The end of a match that starts at `s[0]`, scanning from `j`; `best` is
      the last close char seen so far. */
  function MatchEnd(s: string, j: nat, stop: char, close: char, best: Option<nat>): (r: Option<nat>)
    requires 0 < j <= |s|
    requires best.Some? ==> 0 < best.value < j
    ensures r.Some? ==> 0 < r.value < |s|
    decreases |s| - j
  {
    if j == |s| then best
    else if s[j] == stop then (if s[j] == close then Some(j) else best)
    else MatchEnd(s, j + 1, stop, close, if s[j] == close then Some(j) else best)
  }

  /** `re.sub(r'\o[^t]*\c', '', s)`: every match, left to right, is
      deleted; any other char is kept. */
  function Sub(s: string, open: char, stop: char, close: char): string
    decreases |s|
  {
    if |s| == 0 then []
    else if s[0] == open && MatchEnd(s, 1, stop, close, None).Some? then
      Sub(s[MatchEnd(s, 1, stop, close, None).value + 1..], open, stop, close)
    else [s[0]] + Sub(s[1..], open, stop, close)
  }

  /** `remove_paren_brack` as written: the bracket pattern is `\[[^)]*\]`. */
  function RemoveParenBrackAsWritten(s: string): string
  {
    Sub(Sub(s, '(', ')', ')'), '[', ')', ']')
  }

  /** `remove_paren_brack` as evidently intended: the bracket pattern is
      `\[[^\]]*\]`. */
  function RemoveParenBrack(s: string): string
  {
    Sub(Sub(s, '(', ')', ')'), '[', ']', ']')
  }

  /** Some `x` in `s` has a `y` after it. */
  predicate Precedes(s: string, x: char, y: char)
    decreases |s|
  {
    |s| > 0 && ((s[0] == x && y in s[1..]) || Precedes(s[1..], x, y))
  }

  /** When the stop char is the close char, a match exists exactly when a
      close char follows. */
  lemma {:induction false} MatchEndFinds(s: string, j: nat, close: char)
    requires 0 < j <= |s|
    ensures MatchEnd(s, j, close, close, None).None? <==> close !in s[j..]
    decreases |s| - j
  {
    if j < |s| && s[j] != close {
      MatchEndFinds(s, j + 1, close);
      assert s[j..] == [s[j]] + s[j + 1..];
    }
  }

  /** Every pass only deletes: each char of the output is one of the
      input. */
  lemma {:induction false} SubChars(s: string, open: char, stop: char, close: char, x: char)
    ensures x in Sub(s, open, stop, close) ==> x in s
    decreases |s|
  {
    if |s| > 0 {
      if s[0] == open && MatchEnd(s, 1, stop, close, None).Some? {
        var m := MatchEnd(s, 1, stop, close, None).value;
        SubChars(s[m + 1..], open, stop, close, x);
        assert x in s[m + 1..] ==> x in s;
      } else {
        SubChars(s[1..], open, stop, close, x);
      }
    }
  }

  /** An order between two chars found in a suffix is found in the whole. */
  lemma {:induction false} PrecedesSuffix(s: string, k: nat, x: char, y: char)
    requires k <= |s|
    ensures Precedes(s[k..], x, y) ==> Precedes(s, x, y)
    decreases k
  {
    if k > 0 {
      PrecedesSuffix(s[1..], k - 1, x, y);
      assert s[1..][k - 1..] == s[k..];
    }
  }

  /** A pass keeps the relative order of what it keeps, so it creates no
      new `x ... y`. */
  lemma {:induction false} SubKeepsOrder(s: string, open: char, stop: char, close: char, x: char, y: char)
    ensures Precedes(Sub(s, open, stop, close), x, y) ==> Precedes(s, x, y)
    decreases |s|
  {
    if |s| > 0 {
      if s[0] == open && MatchEnd(s, 1, stop, close, None).Some? {
        var m := MatchEnd(s, 1, stop, close, None).value;
        SubKeepsOrder(s[m + 1..], open, stop, close, x, y);
        PrecedesSuffix(s, m + 1, x, y);
      } else {
        var t := Sub(s[1..], open, stop, close);
        SubKeepsOrder(s[1..], open, stop, close, x, y);
        SubChars(s[1..], open, stop, close, y);
        assert ([s[0]] + t)[1..] == t;
      }
    }
  }

  /** After a pass whose stop char is its close char, no open char is
      followed by a close char. */
  lemma {:induction false} StripLeavesNone(s: string, open: char, close: char)
    ensures !Precedes(Sub(s, open, close, close), open, close)
    decreases |s|
  {
    if |s| > 0 {
      if s[0] == open && MatchEnd(s, 1, close, close, None).Some? {
        var m := MatchEnd(s, 1, close, close, None).value;
        StripLeavesNone(s[m + 1..], open, close);
      } else {
        var t := Sub(s[1..], open, close, close);
        StripLeavesNone(s[1..], open, close);
        if s[0] == open {
          MatchEndFinds(s, 1, close);
          SubChars(s[1..], open, close, close, close);
        }
        assert ([s[0]] + t)[1..] == t;
      }
    }
  }

  /** Such a pass leaves a string without an open char before a close char
      as it is. */
  lemma {:induction false} StripNothing(s: string, open: char, close: char)
    requires !Precedes(s, open, close)
    ensures Sub(s, open, close, close) == s
    decreases |s|
  {
    if |s| > 0 {
      if s[0] == open {
        MatchEndFinds(s, 1, close);
      }
      StripNothing(s[1..], open, close);
      assert s == [s[0]] + s[1..];
    }
  }

  /** The intended `remove_paren_brack` leaves no `(` before a `)` and no
      `[` before a `]`, and removes nothing more when applied again. */
  lemma RemoveParenBrackClean(s: string)
    ensures !Precedes(RemoveParenBrack(s), '(', ')')
    ensures !Precedes(RemoveParenBrack(s), '[', ']')
    ensures RemoveParenBrack(RemoveParenBrack(s)) == RemoveParenBrack(s)
  {
    var p := Sub(s, '(', ')', ')');
    var r := Sub(p, '[', ']', ']');
    StripLeavesNone(s, '(', ')');
    SubKeepsOrder(p, '[', ']', ']', '(', ')');
    StripLeavesNone(p, '[', ']');
    StripNothing(r, '(', ')');
    StripNothing(r, '[', ']');
  }

  /** As written, the first bracket pair of `"a[1]b[2]"` swallows text up
      to the last `]`, taking `b` with it. */
  lemma BracketPassOverreaches()
    ensures RemoveParenBrackAsWritten("a[1]b[2]") == "a"
  {
    var s := "a[1]b[2]";
    NoParens(s);
    var t := s[1..];
    assert MatchEnd(t, 1, ')', ']', None) == Some(6);
    assert Sub(t, '[', ')', ']') == [] by {
      assert t[7..] == [];
    }
  }

  /** The intended bracket pass removes the two pairs one by one. */
  lemma BracketPassIntended()
    ensures RemoveParenBrack("a[1]b[2]") == "ab"
  {
    var s := "a[1]b[2]";
    NoParens(s);
    var t := s[1..];
    assert MatchEnd(t, 1, ']', ']', None) == Some(2);
    var u := t[3..];
    assert u == "b[2]";
    var v := u[1..];
    assert MatchEnd(v, 1, ']', ']', None) == Some(2);
    assert Sub(v, '[', ']', ']') == [] by {
      assert v[3..] == [];
    }
  }

  lemma NoParens(s: string)
    requires s == "a[1]b[2]"
    ensures Sub(s, '(', ')', ')') == s
  {
    assert forall i :: 0 <= i < |s| ==> s[i] != '(';
    Absent(s, '(', ')');
    StripNothing(s, '(', ')');
  }

  /** A char that does not occur precedes nothing. */
  lemma {:induction false} Absent(s: string, x: char, y: char)
    requires x !in s
    ensures !Precedes(s, x, y)
    decreases |s|
  {
    if |s| > 0 {
      Absent(s[1..], x, y);
    }
  }
}
