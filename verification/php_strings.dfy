/** String helpers with the semantics of the PHP built-ins the backup module
    relies on. PHP strings are byte strings; a `char` here stands for one byte. */
module PhpStrings {

  /** PHP's `empty()` applied to a string value: true for "" and for "0". */
  predicate IsEmpty(s: string)
  {
    s == "" || s == "0"
  }

  /** `t` occurs in `s` starting at index `i`. */
  predicate OccursAt(t: string, s: string, i: nat)
  {
    i + |t| <= |s| && s[i..i + |t|] == t
  }

  /** `strpos($s, $t) !== false`. */
  predicate Contains(s: string, t: string)
  {
    exists i :: 0 <= i <= |s| && OccursAt(t, s, i)
  }

  lemma ContainsInfix(x: string, t: string, y: string)
    ensures Contains(x + t + y, t)
  {
    assert (x + t + y)[|x|..|x| + |t|] == t;
    assert OccursAt(t, x + t + y, |x|);
  }

  /** Containment is transitive: a text containing `t` contains everything `t` contains. */
  lemma ContainsTransitive(s: string, t: string, u: string)
    requires Contains(s, t) && Contains(t, u)
    ensures Contains(s, u)
  {
    var i :| 0 <= i <= |s| && OccursAt(t, s, i);
    var j :| 0 <= j <= |t| && OccursAt(u, t, j);
    forall k | 0 <= k < |u|
      ensures u[k] == s[i + j + k]
    {
      assert u[k] == t[j..j + |u|][k] == t[j + k];
      assert t[j + k] == s[i..i + |t|][j + k] == s[i + j + k];
    }
    assert s[i + j..i + j + |u|] == u;
    assert OccursAt(u, s, i + j);
  }

  /** A text cannot contain `t` if no position that could start an occurrence
      holds `t`'s first character. */
  lemma NotContainsByFirstChar(s: string, t: string)
    requires |t| > 0
    requires forall i :: 0 <= i <= |s| - |t| ==> s[i] != t[0]
    ensures !Contains(s, t)
  {
    forall i | 0 <= i <= |s|
      ensures !OccursAt(t, s, i)
    {
      if i + |t| <= |s| {
        assert s[i..i + |t|][0] == s[i];
      }
    }
  }

  // ---------------------------------------------------------------------
  // explode / implode

  /** `explode($d, $s)`: the pieces of `s` between occurrences of `d`. */
  function Explode(s: string, d: char): (parts: seq<string>)
    ensures |parts| >= 1
    decreases |s|
  {
    if |s| == 0 then [""]
    else
      var rest := Explode(s[1..], d);
      if s[0] == d then [""] + rest
      else [[s[0]] + rest[0]] + rest[1..]
  }

  /** `implode($d, $parts)`. */
  function Implode(parts: seq<string>, d: char): string
    decreases |parts|
  {
    if |parts| == 0 then ""
    else if |parts| == 1 then parts[0]
    else parts[0] + [d] + Implode(parts[1..], d)
  }

  lemma ImplodeCons(p: string, rest: seq<string>, d: char)
    requires |rest| >= 1
    ensures Implode([p] + rest, d) == p + [d] + Implode(rest, d)
  {
    assert ([p] + rest)[1..] == rest;
  }

  lemma ImplodeHead(c: char, p: string, rest: seq<string>, d: char)
    ensures Implode([[c] + p] + rest, d) == [c] + Implode([p] + rest, d)
  {
    if |rest| == 0 {
    } else {
      ImplodeCons([c] + p, rest, d);
      ImplodeCons(p, rest, d);
    }
  }

  /** Joining the pieces with the delimiter gives back the original text. */
  lemma {:induction false} ImplodeExplode(s: string, d: char)
    ensures Implode(Explode(s, d), d) == s
    decreases |s|
  {
    if |s| == 0 {
    } else {
      var rest := Explode(s[1..], d);
      ImplodeExplode(s[1..], d);
      if s[0] == d {
        ImplodeCons("", rest, d);
        assert [d] + s[1..] == s;
      } else {
        assert rest == [rest[0]] + rest[1..];
        ImplodeHead(s[0], rest[0], rest[1..], d);
        assert [s[0]] + s[1..] == s;
      }
    }
  }

  /** No piece contains the delimiter. */
  lemma {:induction false} ExplodePiecesFree(s: string, d: char)
    ensures forall k :: 0 <= k < |Explode(s, d)| ==> d !in Explode(s, d)[k]
    decreases |s|
  {
    if |s| > 0 {
      ExplodePiecesFree(s[1..], d);
    }
  }

  /** Splitting at a delimiter occurrence splits the result there. */
  lemma {:induction false} ExplodeAround(x: string, y: string, d: char)
    ensures Explode(x + [d] + y, d) == Explode(x, d) + Explode(y, d)
    decreases |x|
  {
    if |x| == 0 {
      assert x + [d] + y == [d] + y;
      assert ([d] + y)[1..] == y;
    } else {
      var t := x[1..] + [d] + y;
      assert x + [d] + y == [x[0]] + t;
      assert x == [x[0]] + x[1..];
      ExplodeAround(x[1..], y, d);
      ExplodeConsConcat(x[0], x[1..], t, Explode(y, d), d);
    }
  }

  /** Putting a character in front of two texts whose pieces agree up to a
      common tail keeps them agreeing. */
  lemma ExplodeConsConcat(c: char, a: string, t: string, tail: seq<string>, d: char)
    requires Explode(t, d) == Explode(a, d) + tail
    ensures Explode([c] + t, d) == Explode([c] + a, d) + tail
  {
    assert ([c] + t)[1..] == t;
    assert ([c] + a)[1..] == a;
    if c == d {
      assert [""] + (Explode(a, d) + tail) == ([""] + Explode(a, d)) + tail;
    } else {
      GlueFirstPiece([c], Explode(a, d), tail);
    }
  }

  /** Gluing text onto the first piece commutes with appending more pieces. */
  lemma GlueFirstPiece(x: string, left: seq<string>, tail: seq<string>)
    requires |left| >= 1
    ensures [x + (left + tail)[0]] + (left + tail)[1..] == ([x + left[0]] + left[1..]) + tail
  {
    assert (left + tail)[0] == left[0];
    assert (left + tail)[1..] == left[1..] + tail;
  }

  /** A text without the delimiter is a single piece. */
  lemma {:induction false} ExplodeFree(s: string, d: char)
    requires d !in s
    ensures Explode(s, d) == [s]
    decreases |s|
  {
    if |s| > 0 {
      ExplodeFree(s[1..], d);
      assert [s[0]] + s[1..] == s;
    }
  }

  // ---------------------------------------------------------------------
  // trim

  /** The characters PHP's `trim()` strips by default. */
  predicate IsTrimChar(c: char)
  {
    c == ' ' || c == '\t' || c == '\n' || c == '\r' || c == '\0' || c == '\U{000B}'
  }

  /** The number of leading whitespace characters of `s`. */
  function LeadingSpace(s: string): (n: nat)
    ensures n <= |s|
    ensures forall k :: 0 <= k < n ==> IsTrimChar(s[k])
    ensures n == |s| || !IsTrimChar(s[n])
    decreases |s|
  {
    if |s| > 0 && IsTrimChar(s[0]) then 1 + LeadingSpace(s[1..]) else 0
  }

  /** The length of `s` without its trailing whitespace. */
  function ContentEnd(s: string): (n: nat)
    ensures n <= |s|
    ensures forall k :: n <= k < |s| ==> IsTrimChar(s[k])
    ensures n == 0 || !IsTrimChar(s[n - 1])
    decreases |s|
  {
    if |s| > 0 && IsTrimChar(s[|s| - 1]) then ContentEnd(s[..|s| - 1]) else |s|
  }

  /** PHP's `trim()`: `s` without its leading and trailing whitespace. */
  function Trim(s: string): (r: string)
    ensures exists i, j :: 0 <= i <= j <= |s| && r == s[i..j]
                           && (forall k :: 0 <= k < i ==> IsTrimChar(s[k]))
                           && (forall k :: j <= k < |s| ==> IsTrimChar(s[k]))
    ensures r == [] || (!IsTrimChar(r[0]) && !IsTrimChar(r[|r| - 1]))
  {
    var i := LeadingSpace(s);
    var j := i + ContentEnd(s[i..]);
    assert s[i..][..j - i] == s[i..j];
    s[i..j]
  }

  /** A text whose ends are not whitespace survives `trim()` unchanged, even
      when a line break has been appended to it (the output of `echo`). */
  lemma TrimEchoed(s: string)
    requires s == [] || (!IsTrimChar(s[0]) && !IsTrimChar(s[|s| - 1]))
    ensures Trim(s + "\n") == s
  {
    var t := s + "\n";
    assert t[..|t| - 1] == s;
    if s == [] {
      assert LeadingSpace(t) == 1;
    } else {
      assert LeadingSpace(t) == 0;
      assert ContentEnd(s) == |s|;
      assert ContentEnd(t) == |s|;
      assert t[0..|s|] == s;
    }
  }

  // ---------------------------------------------------------------------
  // strtolower

  function LowerChar(c: char): (r: char)
    ensures 'A' <= c <= 'Z' ==> 'a' <= r <= 'z'
    ensures !('A' <= c <= 'Z') ==> r == c
  {
    if 'A' <= c <= 'Z' then (c as int - 'A' as int + 'a' as int) as char else c
  }

  /** PHP's `strtolower()` on ASCII text. */
  function ToLower(s: string): (r: string)
    ensures |r| == |s|
    ensures forall k :: 0 <= k < |s| ==> r[k] == LowerChar(s[k])
  {
    seq(|s|, k requires 0 <= k < |s| => LowerChar(s[k]))
  }

  /** Lower-casing twice changes nothing more. */
  lemma ToLowerIdempotent(s: string)
    ensures ToLower(ToLower(s)) == ToLower(s)
  {
  }

  // ---------------------------------------------------------------------
  // decimal rendering

  function DigitChar(d: nat): char
    requires d < 10
  {
    "0123456789"[d]
  }

  /** The decimal text PHP produces when a non-negative integer is concatenated to a string. */
  function NatToString(n: nat): (s: string)
    ensures |s| >= 1
    ensures '0' <= s[|s| - 1] <= '9'
    ensures n < 10 <==> |s| == 1
    decreases n
  {
    if n < 10 then [DigitChar(n)] else NatToString(n / 10) + [DigitChar(n % 10)]
  }

  /** The decimal text of an integer, with a leading minus sign when negative. */
  function IntToString(i: int): (s: string)
    ensures i >= 0 ==> s == NatToString(i)
    ensures i < 0 ==> |s| >= 2 && s[0] == '-'
  {
    if i < 0 then "-" + NatToString(-i) else NatToString(i)
  }

  /** Distinct numbers render as distinct texts. */
  lemma {:induction false} NatToStringInjective(a: nat, b: nat)
    requires NatToString(a) == NatToString(b)
    ensures a == b
    decreases a
  {
    var sa, sb := NatToString(a), NatToString(b);
    if a < 10 {
      assert b < 10;
      assert DigitChar(a) == DigitChar(b);
    } else {
      assert b >= 10;
      assert sa[|sa| - 1] == sb[|sb| - 1];
      assert DigitChar(a % 10) == DigitChar(b % 10);
      assert sa[..|sa| - 1] == NatToString(a / 10);
      assert sb[..|sb| - 1] == NatToString(b / 10);
      NatToStringInjective(a / 10, b / 10);
    }
  }
}
