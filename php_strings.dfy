/**
  The PHP string built-ins the client relies on, as PHP 8 defines them on byte
  strings: strtolower, trim/ltrim, explode/implode, strtr and the byte-wise order
  behind strcmp() and ksort(). Each is a total function; the contracts pin down
  the result completely, so the other modules reason about the contracts only.
*/
module PhpStrings {

  /** strtolower() on one character: only the ASCII letters A-Z change. */
  function LowerChar(c: char): char {
    if 'A' <= c <= 'Z' then (c as int + 32) as char else c
  }

  /** strtolower() */
  function Lower(s: string): (r: string)
    ensures |r| == |s|
    ensures forall i :: 0 <= i < |s| ==> r[i] == LowerChar(s[i])
  {
    if |s| == 0 then [] else [LowerChar(s[0])] + Lower(s[1..])
  }

  /** The characters trim() strips when no character list is given. */
  const TrimSet: set<char> := {' ', '\t', '\n', '\r', '\0', 11 as char}

  /** ltrim($s, $strip): drops the longest prefix made only of characters of strip. */
  function LTrim(s: string, strip: set<char>): (r: string)
    ensures |r| <= |s| && r == s[|s| - |r|..]
    ensures forall i :: 0 <= i < |s| - |r| ==> s[i] in strip
    ensures r == [] || r[0] !in strip
    decreases |s|
  {
    if |s| > 0 && s[0] in strip then LTrim(s[1..], strip) else s
  }

  /** rtrim($s, $strip): drops the longest suffix made only of characters of strip. */
  function RTrim(s: string, strip: set<char>): (r: string)
    ensures |r| <= |s| && r == s[..|r|]
    ensures forall i :: |r| <= i < |s| ==> s[i] in strip
    ensures r == [] || r[|r| - 1] !in strip
    decreases |s|
  {
    if |s| > 0 && s[|s| - 1] in strip then RTrim(s[..|s| - 1], strip) else s
  }

  /** trim() with its default character list. */
  function Trim(s: string): (r: string)
    ensures r == [] || (r[0] !in TrimSet && r[|r| - 1] !in TrimSet)
  {
    RTrim(LTrim(s, TrimSet), TrimSet)
  }

  /** The first position of c in s. */
  function IndexOf(s: string, c: char): (i: nat)
    requires c in s
    ensures i < |s| && s[i] == c && c !in s[..i]
  {
    if s[0] == c then 0
    else
      var j := IndexOf(s[1..], c);
      assert s[..j + 1] == [s[0]] + s[1..][..j];
      j + 1
  }

  /** implode($sep, $pieces) */
  function Implode(pieces: seq<string>, sep: char): string {
    if |pieces| == 0 then ""
    else if |pieces| == 1 then pieces[0]
    else pieces[0] + [sep] + Implode(pieces[1..], sep)
  }

  /**
    explode($sep, $s) for a one-character separator: the pieces between the
    occurrences of sep, at least one, none holding sep, which implode back to s.
  */
  function Explode(s: string, sep: char): (pieces: seq<string>)
    ensures |pieces| >= 1
    ensures forall i :: 0 <= i < |pieces| ==> sep !in pieces[i]
    ensures Implode(pieces, sep) == s
    decreases |s|
  {
    if sep !in s then [s]
    else
      var i := IndexOf(s, sep);
      var rest := Explode(s[i + 1..], sep);
      assert ([s[..i]] + rest)[1..] == rest;
      assert s == s[..i] + [sep] + s[i + 1..];
      [s[..i]] + rest
  }

  /** explode() is the only split of its input into separator-free pieces. */
  lemma {:induction false} ExplodeImplode(pieces: seq<string>, sep: char)
    requires |pieces| >= 1
    requires forall i :: 0 <= i < |pieces| ==> sep !in pieces[i]
    ensures Explode(Implode(pieces, sep), sep) == pieces
    decreases |pieces|
  {
    if |pieces| > 1 {
      var s := Implode(pieces, sep);
      var head := pieces[0];
      var tail := Implode(pieces[1..], sep);
      assert s == head + [sep] + tail;
      assert s[..|head|] == head && s[|head|] == sep;
      IndexOfAt(s, sep, |head|);
      assert s[|head| + 1..] == tail;
      ExplodeImplode(pieces[1..], sep);
      assert pieces == [head] + pieces[1..];
    }
  }

  /** The first occurrence of c is at k when s[k] is c and no earlier character is. */
  lemma IndexOfAt(s: string, c: char, k: nat)
    requires k < |s| && s[k] == c && c !in s[..k]
    ensures c in s && IndexOf(s, c) == k
  {
  }

  /**
    The first piece of explode() is everything before the first separator, or
    the whole string when there is none.
  */
  lemma ExplodeHead(s: string, sep: char)
    ensures sep !in s ==> Explode(s, sep) == [s]
    ensures sep in s ==> Explode(s, sep)[0] == s[..IndexOf(s, sep)]
  {
  }

  /**
    The byte-wise order of strcmp(), which ksort() also applies to keys that
    are not numeric: a is less than b when it is a proper prefix of b or when
    the first byte where they differ is smaller in a.
  */
  predicate Less(a: string, b: string)
    decreases |a|
  {
    |b| > 0 && (|a| == 0 || a[0] < b[0] || (a[0] == b[0] && Less(a[1..], b[1..])))
  }

  lemma {:induction false} LessAsymmetric(a: string, b: string)
    requires Less(a, b)
    ensures !Less(b, a)
    decreases |a|
  {
    if |a| > 0 && a[0] == b[0] && !(a[0] < b[0]) {
      LessAsymmetric(a[1..], b[1..]);
    }
  }

  /** strcmp(): negative, zero or positive as a is below, equal to or above b. */
  function Strcmp(a: string, b: string): int {
    if a == b then 0 else if Less(a, b) then -1 else 1
  }

  predicate Distinct(s: string) {
    forall i, j :: 0 <= i < j < |s| ==> s[i] != s[j]
  }

  /**
    strtr($s, $from, $to) on one character: the character of to at the last
    position of c in from, or c itself when from does not hold it.
  */
  function TrChar(c: char, from: string, to: string): char
    requires |from| == |to|
    decreases |from|
  {
    if |from| == 0 then c
    else if from[|from| - 1] == c then to[|to| - 1]
    else TrChar(c, from[..|from| - 1], to[..|to| - 1])
  }

  /** strtr() with two strings of equal length: a per-character translation. */
  function StrTr(s: string, from: string, to: string): (r: string)
    requires |from| == |to|
    ensures |r| == |s|
    ensures forall i :: 0 <= i < |s| ==> r[i] == TrChar(s[i], from, to)
  {
    if |s| == 0 then [] else [TrChar(s[0], from, to)] + StrTr(s[1..], from, to)
  }

  /** A table without repeated characters sends its k-th character to the k-th of to. */
  lemma {:induction false} TrCharAt(from: string, to: string, k: nat)
    requires |from| == |to| && Distinct(from) && k < |from|
    ensures TrChar(from[k], from, to) == to[k]
    decreases |from|
  {
    if k < |from| - 1 {
      TrCharAt(from[..|from| - 1], to[..|to| - 1], k);
    }
  }

  /** A character missing from the table is left as it is. */
  lemma {:induction false} TrCharOutside(c: char, from: string, to: string)
    requires |from| == |to| && c !in from
    ensures TrChar(c, from, to) == c
    decreases |from|
  {
    if |from| > 0 {
      assert c !in from[..|from| - 1];
      TrCharOutside(c, from[..|from| - 1], to[..|to| - 1]);
    }
  }

  /** A character is either left as it is or translated into a character of to. */
  lemma {:induction false} TrCharRange(c: char, from: string, to: string)
    requires |from| == |to|
    ensures TrChar(c, from, to) == c || TrChar(c, from, to) in to
    decreases |from|
  {
    if |from| > 0 && from[|from| - 1] != c {
      TrCharRange(c, from[..|from| - 1], to[..|to| - 1]);
    }
  }

  /** Two translations that undo each other character by character undo each other on text. */
  lemma StrTrPointwiseInverse(s: string, from: string, to: string)
    requires |from| == |to|
    requires forall i :: 0 <= i < |s| ==> TrChar(TrChar(s[i], from, to), to, from) == s[i]
    ensures StrTr(StrTr(s, from, to), to, from) == s
  {
  }

  /** Text with no character of the table is left as it is. */
  lemma StrTrOutside(s: string, from: string, to: string)
    requires |from| == |to|
    requires forall i :: 0 <= i < |s| ==> s[i] !in from
    ensures StrTr(s, from, to) == s
  {
    forall i | 0 <= i < |s| ensures StrTr(s, from, to)[i] == s[i] {
      TrCharOutside(s[i], from, to);
    }
  }
}
