/** C strings in buffers, their comparison, and the tokenizer with its static cursor. */
module Strings {
  import opened Bytes

  // ----- strings in a buffer

  /** A NUL stands at or after position p. */
  ghost predicate Terminated(s: seq<byte>, p: nat) {
    exists i :: p <= i < |s| && s[i] == 0
  }

  /** The C string that a pointer to position p denotes. */
  function StringAt(s: seq<byte>, p: nat): (r: seq<byte>)
    requires p <= |s|
    ensures p + |r| <= |s| && (p + |r| < |s| ==> s[p + |r|] == 0)
    ensures forall i :: 0 <= i < |r| ==> r[i] == s[p + i] && r[i] != 0
    ensures IsCString(r)
    decreases |s| - p
  {
    if p == |s| || s[p] == 0 then [] else [s[p]] + StringAt(s, p + 1)
  }

  lemma StringAtEnds(s: seq<byte>, p: nat)
    requires Terminated(s, p)
    ensures p + |StringAt(s, p)| < |s| && s[p + |StringAt(s, p)|] == 0
    ensures forall i :: p <= i < p + |StringAt(s, p)| ==> s[i] != 0
  {
    var t := StringAt(s, p);
    forall i | p <= i < p + |t|
      ensures s[i] != 0
    {
      assert t[i - p] == s[i];
    }
  }

  lemma StringAtUnique(s: seq<byte>, p: nat, t: seq<byte>)
    requires p + |t| < |s| && s[p + |t|] == 0
    requires forall i :: 0 <= i < |t| ==> t[i] == s[p + i] && t[i] != 0
    ensures Terminated(s, p) && StringAt(s, p) == t
  {
    var u := StringAt(s, p);
    StringAtEnds(s, p);
    forall i | p <= i < p + |t|
      ensures s[i] != 0
    {
      assert t[i - p] == s[i];
    }
  }

  method StrLen(s: array<byte>, p: nat) returns (n: nat)
    requires Terminated(s[..], p)
    ensures n == |StringAt(s[..], p)|
  {
    StringAtEnds(s[..], p);
    n := 0;
    while s[p + n] != 0
      invariant n <= |StringAt(s[..], p)|
      decreases |StringAt(s[..], p)| - n
    {
      n := n + 1;
    }
  }

  // ----- comparison

  /** Character i of a C string; the terminating NUL at its end. */
  function CharOf(s: seq<byte>, i: nat): byte
    requires i <= |s|
  {
    if i < |s| then s[i] else 0
  }

  /** What strcmp returns from character i on: the difference of the first characters that differ, as signed chars. */
  function Compare(s: seq<byte>, t: seq<byte>, i: nat): int
    requires i <= |s| && i <= |t|
    decreases |s| - i
  {
    if CharOf(s, i) != CharOf(t, i) then SignedChar(CharOf(s, i)) - SignedChar(CharOf(t, i))
    else if i == |s| || i == |t| then 0
    else Compare(s, t, i + 1)
  }

  /** strcmp is 0 exactly on equal strings. */
  lemma {:induction false} CompareEqual(s: seq<byte>, t: seq<byte>, i: nat)
    requires IsCString(s) && IsCString(t) && i <= |s| && i <= |t| && s[..i] == t[..i]
    ensures Compare(s, t, i) == 0 <==> s == t
    decreases |s| - i
  {
    CStringChars(s);
    CStringChars(t);
    if i < |s| && i < |t| && s[i] == t[i] {
      assert s[..i + 1] == s[..i] + [s[i]] && t[..i + 1] == t[..i] + [t[i]];
      CompareEqual(s, t, i + 1);
    } else if i == |s| == |t| {
      assert s == s[..i] && t == t[..i];
    }
  }

  method StrCmp(s: array<byte>, p: nat, t: seq<byte>) returns (r: int)
    requires p <= s.Length && Terminated(s[..], p) && IsCString(t)
    ensures r == Compare(StringAt(s[..], p), t, 0)
  {
    ghost var u := StringAt(s[..], p);
    StringAtEnds(s[..], p);
    CStringChars(t);
    var i := 0;
    while s[p + i] == CharOf(t, i)
      invariant i <= |u| && i <= |t| && p + |u| < s.Length
      invariant Compare(u, t, 0) == Compare(u, t, i)
      decreases |t| - i
    {
      assert s[p + i] == CharOf(u, i);
      if s[p + i] == 0 {
        return 0;
      }
      i := i + 1;
    }
    assert s[p + i] == CharOf(u, i);
    return SignedChar(s[p + i]) - SignedChar(CharOf(t, i));
  }

  /** What strncmp returns on characters i to n. */
  function CompareN(s: seq<byte>, t: seq<byte>, i: nat, n: nat): int
    requires i <= |s| && i <= |t| && i <= n
    decreases n - i
  {
    if i == n then 0
    else if CharOf(s, i) != CharOf(t, i) then SignedChar(CharOf(s, i)) - SignedChar(CharOf(t, i))
    else if i == |s| || i == |t| then 0
    else CompareN(s, t, i + 1, n)
  }

  /** strncmp over the whole length of s is 0 exactly if s is a prefix. */
  lemma {:induction false} CompareNPrefix(s: seq<byte>, t: seq<byte>, i: nat)
    requires IsCString(s) && IsCString(t) && i <= |s| && i <= |t| && s[..i] == t[..i]
    ensures CompareN(s, t, i, |s|) == 0 <==> s <= t
    decreases |s| - i
  {
    CStringChars(s);
    CStringChars(t);
    if i == |s| {
      assert s == s[..i];
    } else if i < |t| && s[i] == t[i] {
      assert s[..i + 1] == s[..i] + [s[i]] && t[..i + 1] == t[..i] + [t[i]];
      CompareNPrefix(s, t, i + 1);
    }
  }

  method StrNCmp(s: array<byte>, t: seq<byte>, n: nat) returns (r: int)
    requires Terminated(s[..], 0) && IsCString(t)
    ensures r == CompareN(StringAt(s[..], 0), t, 0, n)
  {
    ghost var u := StringAt(s[..], 0);
    StringAtEnds(s[..], 0);
    CStringChars(t);
    for i := 0 to n
      invariant i <= |u| && i <= |t| && |u| < s.Length
      invariant CompareN(u, t, 0, n) == CompareN(u, t, i, n)
    {
      assert s[i] == CharOf(u, i);
      if s[i] != CharOf(t, i) {
        return SignedChar(s[i]) - SignedChar(CharOf(t, i));
      }
      if s[i] == 0 {
        return 0;
      }
    }
    return 0;
  }

  // ----- splitting a text

  /** The first d in t from i on, or the end of t. */
  function Position(t: seq<byte>, d: byte, i: nat): (n: nat)
    requires i <= |t|
    ensures i <= n <= |t| && (n < |t| ==> t[n] == d)
    ensures forall j :: i <= j < n ==> t[j] != d
    decreases |t| - i
  {
    if i == |t| || t[i] == d then i else Position(t, d, i + 1)
  }

  /** The text before the first d, and the text after it; all of it and nothing if there is none. */
  function Head(t: seq<byte>, d: byte): seq<byte> {
    t[..Position(t, d, 0)]
  }

  function Tail(t: seq<byte>, d: byte): (r: seq<byte>)
    ensures t != [] ==> |r| < |t|
  {
    var n := Position(t, d, 0);
    if n < |t| then t[n + 1..] else []
  }

  lemma PartsAreCStrings(t: seq<byte>, d: byte)
    requires IsCString(t)
    ensures IsCString(Head(t, d)) && IsCString(Tail(t, d))
  {
  }

  lemma PositionUnique(t: seq<byte>, d: byte, n: nat)
    requires n <= |t| && (forall i :: 0 <= i < n ==> t[i] != d) && (n < |t| ==> t[n] == d)
    ensures Position(t, d, 0) == n
  {
  }

  /** The tokens that repeated calls deliver. */
  function TokensOf(t: seq<byte>, d: byte): seq<seq<byte>>
    decreases |t|
  {
    if t == [] then [] else [Head(t, d)] + TokensOf(Tail(t, d), d)
  }

  /** Every token followed by a d. */
  function Glue(tokens: seq<seq<byte>>, d: byte): seq<byte> {
    if tokens == [] then [] else tokens[0] + [d] + Glue(tokens[1..], d)
  }

  lemma {:induction false} TokensAvoid(t: seq<byte>, d: byte)
    ensures forall x :: x in TokensOf(t, d) ==> d !in x
    decreases |t|
  {
    if t != [] {
      TokensAvoid(Tail(t, d), d);
    }
  }

  /** A text with a delimiter added to a last token that lacks one. */
  function Closed(t: seq<byte>, d: byte): seq<byte> {
    if t == [] || t[|t| - 1] == d then t else t + [d]
  }

  lemma ClosedParts(t: seq<byte>, d: byte)
    requires t != []
    ensures Closed(t, d) == Head(t, d) + [d] + Closed(Tail(t, d), d)
  {
    var n := Position(t, d, 0);
    if n == |t| {
      assert t + [d] == t[..n] + [d] + [];
    } else {
      assert t == t[..n] + [d] + t[n + 1..];
    }
  }

  lemma GlueStep(t: seq<byte>, d: byte)
    requires t != []
    ensures Glue(TokensOf(t, d), d) == Head(t, d) + [d] + Glue(TokensOf(Tail(t, d), d), d)
  {
    assert TokensOf(t, d)[1..] == TokensOf(Tail(t, d), d);
  }

  /** The tokens joined by the delimiter are the text, up to one delimiter at its end. */
  lemma {:induction false} JoinTokens(t: seq<byte>, d: byte)
    ensures Glue(TokensOf(t, d), d) == Closed(t, d)
    decreases |t|
  {
    if t != [] {
      JoinTokens(Tail(t, d), d);
      GlueStep(t, d);
      ClosedParts(t, d);
    }
  }

  // ----- the tokenizer

  /** Where the scan from p stops: at the first delimiter or NUL. */
  function Stop(s: seq<byte>, p: nat, d: byte): (e: nat)
    requires p <= |s| && Terminated(s, p)
    ensures p <= e < |s| && (s[e] == 0 || s[e] == d) && forall i :: p <= i < e ==> s[i] != 0 && s[i] != d
    decreases |s| - p
  {
    if s[p] == 0 || s[p] == d then p else Stop(s, p + 1, d)
  }

  /** The buffer and the cursor after a call, and whether there was a token at the cursor. */
  datatype Cut = Cut(found: bool, text: seq<byte>, cursor: nat)

  function CutAt(s: seq<byte>, p: nat, d: byte): Cut
    requires Terminated(s, p)
  {
    var e := Stop(s, p, d);
    if s[p] == 0 then Cut(false, s, p)
    else if s[e] == 0 then Cut(true, s, e)
    else Cut(true, s[e := 0], e + 1)
  }

  /** The scan stops at the end of the text or at its first delimiter. */
  lemma StopPlace(s: seq<byte>, p: nat, d: byte)
    requires Terminated(s, p)
    ensures Stop(s, p, d) - p == if d == 0 then |StringAt(s, p)| else Position(StringAt(s, p), d, 0)
  {
    var t, n := StringAt(s, p), Stop(s, p, d) - p;
    StringAtEnds(s, p);
    if n < |t| {
      assert s[p + n] == t[n] != 0;
    }
    if d != 0 {
      PositionUnique(t, d, n);
    }
  }

  /** A call takes the first token off the rest of the text: the token becomes a C string in place. */
  lemma CutDeliversHead(s: seq<byte>, p: nat, d: byte)
    requires Terminated(s, p)
    ensures var t, c := StringAt(s, p), CutAt(s, p, d);
      && (c.found <==> t != [])
      && (c.found ==> p <= |c.text| && Terminated(c.text, p) && StringAt(c.text, p) == if d == 0 then t else Head(t, d))
  {
    var t, n := StringAt(s, p), Stop(s, p, d) - p;
    StopPlace(s, p, d);
    StringAtEnds(s, p);
    if t != [] {
      StringAtUnique(CutAt(s, p, d).text, p, t[..n]);
    }
  }

  /** Nothing before the old cursor or from the new one on is touched, and only the delimiter that ends the
      token is replaced. */
  lemma CutFrame(s: seq<byte>, p: nat, d: byte)
    requires Terminated(s, p)
    ensures var c := CutAt(s, p, d);
      && |c.text| == |s| && p <= c.cursor <= |s|
      && c.text[..p] == s[..p] && c.text[c.cursor..] == s[c.cursor..]
      && forall i :: 0 <= i < |s| ==> c.text[i] == s[i] || (s[i] == d && c.text[i] == 0)
  {
  }

  /** Between the two cursors exactly the delimiters became NULs. */
  lemma CutBlanks(s: seq<byte>, p: nat, d: byte, i: nat)
    requires Terminated(s, p) && i < |s| && d != 0
    ensures var c := CutAt(s, p, d);
      |c.text| == |s| && c.text[i] == if p <= i < c.cursor && s[i] == d then 0 else s[i]
  {
  }

  /** A call that meets no delimiter leaves the buffer; one that does puts a NUL in its place. */
  lemma CutPlaces(s: seq<byte>, p: nat, d: byte)
    requires Terminated(s, p)
    ensures var t, c, n := StringAt(s, p), CutAt(s, p, d), Stop(s, p, d) - p;
      && n <= |t| && (d == 0 ==> n == |t|) && (d != 0 ==> n == Position(t, d, 0))
      && (n == |t| ==> c.text == s && c.cursor == p + n)
      && (n < |t| ==> c.text == s[p + n := 0] && c.cursor == p + n + 1)
  {
    StopPlace(s, p, d);
    StringAtEnds(s, p);
  }

  /** The cursor then denotes what follows the delimiter. */
  lemma CutLeavesTail(s: seq<byte>, p: nat, d: byte)
    requires Terminated(s, p)
    ensures var t, c := StringAt(s, p), CutAt(s, p, d);
      && c.cursor <= |c.text| == |s| && Terminated(c.text, c.cursor)
      && StringAt(c.text, c.cursor) == (if d == 0 then [] else Tail(t, d))
      && c.cursor + |StringAt(c.text, c.cursor)| == p + |t|
  {
    var n := Stop(s, p, d) - p;
    CutPlaces(s, p, d);
    StringAtEnds(s, p);
    TailFrom(StringAt(s, p), d, n);
    if n == |StringAt(s, p)| {
      StringAtUnique(s, p + n, []);
    } else {
      RestAfterCut(s, p, n);
    }
  }

  lemma TailFrom(t: seq<byte>, d: byte, n: nat)
    requires n <= |t| && if d == 0 then n == |t| else n == Position(t, d, 0)
    ensures (if d == 0 then [] else Tail(t, d)) == if n < |t| then t[n + 1..] else []
  {
  }

  /** What follows place n of a text stays when that place becomes a NUL. */
  lemma RestAfterCut(s: seq<byte>, p: nat, n: nat)
    requires Terminated(s, p) && n < |StringAt(s, p)|
    ensures Terminated(s[p + n := 0], p + n + 1)
    ensures StringAt(s[p + n := 0], p + n + 1) == StringAt(s, p)[n + 1..]
  {
    var t, u := StringAt(s, p), s[p + n := 0];
    var r := t[n + 1..];
    StringAtEnds(s, p);
    forall i | 0 <= i < |r|
      ensures r[i] == u[p + n + 1 + i] && r[i] != 0
    {
      assert r[i] == t[n + 1 + i] == s[p + n + 1 + i];
    }
    StringAtUnique(u, p + n + 1, r);
  }

  /** strtok with its static cursor; the buffer it works on is passed in again on each call. */
  class Tokenizer {
    /** The position that last_token points to, -1 for the null pointer it starts as. */
    var last: int

    constructor ()
      ensures last == -1
    {
      last := -1;
    }

    /** A `first` call starts at the beginning of the buffer, later ones at the cursor; the result is the
        position of the token, or -1 where the source returns a null pointer. */
    method Strtok(buffer: array<byte>, first: bool, d: byte) returns (token: int)
      requires first ==> Terminated(buffer[..], 0)
      requires !first ==> last == -1 || (0 <= last && Terminated(buffer[..], last))
      modifies this, buffer
      ensures !first && old(last) == -1 ==> token == -1 && buffer[..] == old(buffer[..]) && last == -1
      ensures first || old(last) != -1 ==>
        var p := if first then 0 else old(last);
        var c := CutAt(old(buffer[..]), p, d);
        token == (if c.found then p else -1) && buffer[..] == c.text && last == c.cursor
    {
      if first {
        last := 0;
      }
      if last == -1 || buffer[last] == 0 {
        return -1;
      }
      token := last;
      ghost var s, p := buffer[..], last;
      while buffer[last] != 0
        invariant p <= last <= Stop(s, p, d) && buffer[..] == s
        decreases |s| - last
      {
        if buffer[last] == d {
          buffer[last] := 0;
          last := last + 1;
          return;
        }
        last := last + 1;
      }
    }
  }
}
