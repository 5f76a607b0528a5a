/** The byte-string vocabulary the scanners share.  Source text is a `string` holding one `char`
    per byte; no definition here depends on a byte being below 256. */
module Text {

  datatype Option<+T> = None | Some(value: T)

  /** How many line feeds `s` holds. */
  function Newlines(s: string): nat {
    if s == "" then 0 else (if s[0] == '\n' then 1 else 0) + Newlines(s[1..])
  }

  lemma {:induction false} NewlinesConcat(a: string, b: string)
    ensures Newlines(a + b) == Newlines(a) + Newlines(b)
  {
    if a == "" {
      assert a + b == b;
    } else {
      assert (a + b)[1..] == a[1..] + b;
      NewlinesConcat(a[1..], b);
    }
  }

  /** Splits the line feeds of `s[i..]` at `k`; scanners use it when they move from `i` to `k`. */
  lemma NewlinesSlice(s: string, i: nat, k: nat)
    requires i <= k <= |s|
    ensures Newlines(s[..k]) == Newlines(s[..i]) + Newlines(s[i..k])
  {
    assert s[..k] == s[..i] + s[i..k];
    NewlinesConcat(s[..i], s[i..k]);
  }

  lemma {:induction false} NoNewlines(s: string)
    requires '\n' !in s
    ensures Newlines(s) == 0
  {
    if s != "" {
      NoNewlines(s[1..]);
    }
  }

  /** The ASCII part of what Go's strings.TrimSpace trims. */
  predicate IsSpace(c: char) {
    c == ' ' || c == '\t' || c == '\n' || c == '\r' || c == 11 as char || c == 12 as char
  }

  /** By their ASCII codes: tab to carriage return, and the space. */
  lemma SpaceCodes(c: char)
    ensures IsSpace(c) <==> 9 <= c as int <= 13 || c as int == 32
  {
  }

  predicate IsBlank(s: string) { forall k :: 0 <= k < |s| ==> IsSpace(s[k]) }

  function TrimLeft(s: string): (r: string)
    ensures |r| <= |s| && r == s[|s| - |r|..]
    ensures r != "" ==> !IsSpace(r[0])
  {
    if s != "" && IsSpace(s[0]) then TrimLeft(s[1..]) else s
  }

  function TrimRight(s: string): (r: string)
    ensures r <= s
    ensures r != "" ==> !IsSpace(r[|r| - 1])
  {
    if s != "" && IsSpace(s[|s| - 1]) then TrimRight(s[..|s| - 1]) else s
  }

  /** Go's strings.TrimSpace. */
  function Trim(s: string): string { TrimRight(TrimLeft(s)) }

  /** Trimming takes white space off both ends, and all of it. */
  lemma TrimIs(s: string) returns (a: string, b: string)
    ensures s == a + Trim(s) + b && IsBlank(a) && IsBlank(b)
    ensures Trim(s) != "" ==> !IsSpace(Trim(s)[0]) && !IsSpace(Trim(s)[|Trim(s)| - 1])
  {
    hide *;
    a := LeftPart(s);
    b := RightPart(TrimLeft(s));
    TrimTwice(s);
    assert a + (Trim(s) + b) == a + Trim(s) + b;
  }

  lemma TrimTwice(s: string)
    ensures Trim(s) == TrimRight(TrimLeft(s))
    ensures Trim(s) != "" ==> !IsSpace(Trim(s)[0]) && !IsSpace(Trim(s)[|Trim(s)| - 1])
  {
    hide TrimLeft, TrimRight, IsSpace;
  }

  lemma LeftPart(s: string) returns (a: string)
    ensures s == a + TrimLeft(s) && IsBlank(a)
  {
    hide TrimLeft, IsSpace;
    a := s[..|s| - |TrimLeft(s)|];
    forall k | 0 <= k < |a| ensures IsSpace(a[k]) {
      LeftIsBlank(s, k);
    }
  }

  lemma RightPart(s: string) returns (b: string)
    ensures s == TrimRight(s) + b && IsBlank(b)
  {
    hide TrimRight, IsSpace;
    b := s[|TrimRight(s)|..];
    forall k | 0 <= k < |b| ensures IsSpace(b[k]) {
      RightIsBlank(s, |TrimRight(s)| + k);
    }
  }

  lemma {:induction false} LeftIsBlank(s: string, k: nat)
    requires k < |s| - |TrimLeft(s)|
    ensures IsSpace(s[k])
  {
    if k > 0 {
      LeftIsBlank(s[1..], k - 1);
    }
  }

  lemma {:induction false} RightIsBlank(s: string, k: nat)
    requires |TrimRight(s)| <= k < |s|
    ensures IsSpace(s[k])
  {
    if k < |s| - 1 {
      RightIsBlank(s[..|s| - 1], k);
    }
  }

  /** Trimming gives back what white space was put around. */
  lemma TrimOf(a: string, x: string, b: string)
    requires IsBlank(a) && IsBlank(b) && (x != "" ==> !IsSpace(x[0]) && !IsSpace(x[|x| - 1]))
    ensures Trim(a + x + b) == x
  {
    hide IsSpace, TrimRight, TrimLeft;
    if x == "" {
      assert a + x + b == (a + b) + "" && IsBlank(a + b);
      TrimLeftOf(a + b, "");
      TrimRightOf("", "");
    } else {
      assert a + x + b == a + (x + b);
      TrimLeftOf(a, x + b);
      TrimRightOf(x, b);
    }
  }

  lemma TrimLeftOf(a: string, x: string)
    requires IsBlank(a) && (x != "" ==> !IsSpace(x[0]))
    ensures TrimLeft(a + x) == x
  {
    hide IsSpace, TrimLeft;
    var s := a + x;
    var r := TrimLeft(s);
    var k := |s| - |r|;
    assert x != "" ==> s[|a|] == x[0];
    assert r != "" ==> r[0] == s[k];
    assert forall i :: 0 <= i < |a| ==> s[i] == a[i];
    if |a| < k {
      LeftIsBlank(s, |a|);
    }
    assert r == s[k..];
  }

  lemma TrimRightOf(x: string, b: string)
    requires IsBlank(b) && (x != "" ==> !IsSpace(x[|x| - 1]))
    ensures TrimRight(x + b) == x
  {
    hide IsSpace, TrimRight;
    var s := x + b;
    var r := TrimRight(s);
    assert x != "" ==> s[|x| - 1] == x[|x| - 1];
    assert r != "" ==> r[|r| - 1] == s[|r| - 1];
    assert forall i :: |x| <= i < |s| ==> s[i] == b[i - |x|];
    if |r| < |x| {
      RightIsBlank(s, |x| - 1);
    }
    assert r == s[..|r|];
  }

  /** The ASCII part of Go's strings.ToLower. */
  function Lower(s: string): string { seq(|s|, k requires 0 <= k < |s| => LowerChar(s[k])) }

  function LowerChar(c: char): char { if 'A' <= c <= 'Z' then c + 32 as char else c }

  /** `sub` occurs in `s` at offset `k`. */
  predicate OccursAt(s: string, sub: string, k: nat) {
    k + |sub| <= |s| && s[k..k + |sub|] == sub
  }

  lemma OccursInTail(s: string, sub: string, k: nat)
    requires s != ""
    ensures OccursAt(s, sub, k + 1) <==> OccursAt(s[1..], sub, k)
  {
    if k + 1 + |sub| <= |s| {
      assert s[k + 1..k + 1 + |sub|] == s[1..][k..k + |sub|];
    }
  }

  /** Go's strings.Index: the leftmost occurrence, or -1. */
  function Index(s: string, sub: string): (r: int)
    ensures -1 <= r
    ensures r == -1 ==> forall k: nat :: !OccursAt(s, sub, k)
    ensures r >= 0 ==> OccursAt(s, sub, r) && forall k: nat :: k < r ==> !OccursAt(s, sub, k)
  {
    if OccursAt(s, sub, 0) then 0
    else if s == "" then -1
    else
      var r := Index(s[1..], sub);
      assert forall k: nat :: k > 0 && OccursAt(s, sub, k) ==> OccursAt(s[1..], sub, k - 1) by {
        forall k: nat | k > 0 ensures OccursAt(s, sub, k) <==> OccursAt(s[1..], sub, k - 1) {
          OccursInTail(s, sub, k - 1);
        }
      }
      if r < 0 then -1
      else
        OccursInTail(s, sub, r);
        r + 1
  }

  /** The leftmost occurrence is not moved by what follows it. */
  lemma IndexStable(s: string, sub: string, tail: string)
    requires Index(s, sub) >= 0 && sub != ""
    ensures Index(s[..Index(s, sub) + |sub|] + tail, sub) == Index(s, sub)
  {
    var r := Index(s, sub);
    var t := s[..r + |sub|] + tail;
    assert OccursAt(t, sub, r) by {
      assert t[r..r + |sub|] == s[r..r + |sub|];
    }
    forall k: nat | k < r ensures !OccursAt(t, sub, k) {
      assert t[k..k + |sub|] == s[k..k + |sub|];
      assert !OccursAt(s, sub, k);
    }
    assert Index(t, sub) >= 0;
  }

  /** Go's strings.IndexByte is `Index` for a one-byte needle. */
  lemma IndexByte(s: string, c: char)
    ensures Index(s, [c]) < 0 ==> c !in s
    ensures Index(s, [c]) >= 0 ==> s[Index(s, [c])] == c && c !in s[..Index(s, [c])]
  {
    forall k: nat | k < |s| && s[k] == c ensures OccursAt(s, [c], k) {
    }
    if Index(s, [c]) >= 0 {
      assert OccursAt(s, [c], Index(s, [c]));
    }
  }

  /** Dropping `k` bytes from a text cut at `n` and continued with `tail`. */
  lemma DropCut(s: string, n: nat, k: nat, tail: string)
    requires k <= n <= |s|
    ensures (s[..n] + tail)[k..] == s[k..][..n - k] + tail
    ensures s[k..][n - k..] == s[n..]
    ensures forall i :: 0 <= i < n ==> (s[..n] + tail)[i] == s[i]
  {
  }

  predicate StartsWith(s: string, a: char, b: char) { |s| >= 2 && s[0] == a && s[1] == b }

  /** The length of the `//` comment at the head of `s` up to its line feed, if it has one. */
  function LineCommentLen(s: string): (r: Option<nat>)
    requires StartsWith(s, '/', '/')
    ensures r.Some? ==> 2 <= r.value < |s| && s[r.value] == '\n' && '\n' !in s[..r.value]
    ensures r.None? ==> '\n' !in s
  {
    var j := Index(s, "\n");
    IndexByte(s, '\n');
    if j < 0 then None
    else
      assert s[j] == '\n';
      Some(j)
  }

  /** The length of the block comment at the head of `s`, if it is closed. */
  function BlockCommentLen(s: string): (r: Option<nat>)
    requires StartsWith(s, '/', '*')
    ensures r.Some? ==> 4 <= r.value <= |s| && OccursAt(s, "*/", r.value - 2)
  {
    var j := Index(s[2..], "*/");
    if j < 0 then None
    else
      assert s[2..][j..j + 2] == s[2 + j..2 + j + 2];
      Some(2 + j + 2)
  }

  lemma LineCommentStable(s: string, r: string)
    requires StartsWith(s, '/', '/') && LineCommentLen(s).Some?
    requires var n := LineCommentLen(s).value; n < |r| && r[..n + 1] == s[..n + 1]
    ensures StartsWith(r, '/', '/') && LineCommentLen(r) == LineCommentLen(s)
  {
    var j := LineCommentLen(s).value;
    assert r == s[..j + 1] + r[j + 1..];
    IndexStable(s, "\n", r[j + 1..]);
    assert r[0] == s[..j + 1][0] && r[1] == s[..j + 1][1];
  }

  lemma BlockCommentStable(s: string, r: string)
    requires StartsWith(s, '/', '*') && BlockCommentLen(s).Some?
    requires s[..BlockCommentLen(s).value] <= r
    ensures StartsWith(r, '/', '*') && BlockCommentLen(r) == BlockCommentLen(s)
  {
    var n := BlockCommentLen(s).value;
    assert s[2..][..n - 2] + r[n..] == r[2..];
    IndexStable(s[2..], "*/", r[n..]);
    assert r[0] == s[..n][0] && r[1] == s[..n][1];
  }

  predicate HasSuffix(s: string, suffix: string) { |suffix| <= |s| && s[|s| - |suffix|..] == suffix }

  /** Both empty, or both starting with the same byte: all that one byte of lookahead can see. */
  predicate SameHead(a: string, b: string) {
    (|a| > 0 <==> |b| > 0) && (|a| > 0 && |b| > 0 ==> a[0] == b[0])
  }
}
