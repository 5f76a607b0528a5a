/** When a compiler prints the same diagnostics in another order: what stands between them decides
    whether the fingerprints of fix_file_progress.go change. */
module LogOrder {
  import opened Text
  import opened Words
  import opened LogPattern
  import opened FileDiagnostics

  /** A printed diagnostic ends its line and says something. */
  predicate Printed(d: Block) { !IsBlank(d.text) && IsSpace(d.text[|d.text| - 1]) }

  predicate AllPrinted(ds: seq<Block>) { forall k :: 0 <= k < |ds| ==> Printed(ds[k]) }

  /** A diagnostic with the text that stands between it and the next. */
  function Followed(d: Block, sep: string): Block { Block(d.path, d.text + sep) }

  /** The blocks of a log that prints `ds` in order, `seps[k]` after the `k`th: what precedes a location
      on its line, or follows the last diagnostic, belongs to the block before. */
  function Interleaved(ds: seq<Block>, seps: seq<string>): (bs: seq<Block>)
    requires |seps| == |ds|
    ensures |bs| == |ds| && forall k :: 0 <= k < |ds| ==> bs[k] == Followed(ds[k], seps[k])
  {
    seq(|ds|, k requires 0 <= k < |ds| => Followed(ds[k], seps[k]))
  }

  // ----- what a block collapses to

  function Widened(words: string, more: string): string { if more == "" then words else words + " " + more }

  lemma FollowedCollapses(d: Block, sep: string)
    requires Printed(d)
    ensures Collapse(Followed(d, sep).text) == Widened(Collapse(d.text), Collapse(sep))
  {
    CollapseConcat(d.text, sep);
    NoFieldsIffBlank(sep);
    NothingCollapses(sep);
  }

  lemma NothingCollapses(s: string)
    ensures Collapse(s) == "" <==> IsBlank(s)
  {
    NoFieldsIffBlank(s);
    if s != "" && Fields(s) != [] {
      WordsNotEmpty(s);
    }
  }

  lemma {:induction false} WordsNotEmpty(s: string)
    ensures forall k :: 0 <= k < |Fields(s)| ==> Fields(s)[k] != ""
    decreases |s|
  {
    if s != "" {
      FieldsStep(s);
      if IsSpace(s[0]) {
        WordsNotEmpty(s[1..]);
      } else {
        WordsNotEmpty(s[WordLen(s)..]);
      }
    }
  }

  lemma WidenedIs(c: string, d: string, x: string, y: string)
    ensures Widened(c, x) == Widened(c, y) <==> x == y
    ensures Widened(c, x) == Widened(d, x) <==> c == d
  {
    if x != "" && y != "" && Widened(c, x) == Widened(c, y) {
      assert x == Widened(c, x)[|c| + 1..];
      assert y == Widened(c, y)[|c| + 1..];
    }
    if x != "" && Widened(c, x) == Widened(d, x) {
      assert |c| == |d|;
      assert c == Widened(c, x)[..|c|];
      assert d == Widened(d, x)[..|c|];
    }
  }

  /** Two diagnostics exchange what follows them: that shows in the bag unless it is the same words or
      the same diagnostic. */
  lemma CrossShowsIff(d: Block, e: Block, x: string, y: string, norm: string -> string)
    requires Printed(d) && Printed(e)
    ensures Piece(Followed(d, x), norm) + Piece(Followed(e, y), norm) == Piece(Followed(e, x), norm) + Piece(Followed(d, y), norm)
       <==> Collapse(x) == Collapse(y) || Piece(d, norm) == Piece(e, norm)
  {
    FollowedCollapses(d, x);
    FollowedCollapses(d, y);
    FollowedCollapses(e, x);
    FollowedCollapses(e, y);
    CrossPieces(norm(d.path), norm(e.path), Collapse(d.text), Collapse(e.text), Collapse(x), Collapse(y));
    hide Collapse, Printed, Widened;
  }

  function PieceOf(p: string, words: string): multiset<(string, string)> {
    if p == "" then multiset{} else multiset{(p, words)}
  }

  lemma CrossPieces(p: string, q: string, c: string, d: string, x: string, y: string)
    ensures PieceOf(p, Widened(c, x)) + PieceOf(q, Widened(d, y)) == PieceOf(q, Widened(d, x)) + PieceOf(p, Widened(c, y))
       <==> x == y || PieceOf(p, c) == PieceOf(q, d)
  {
    WidenedIs(c, d, x, y);
    WidenedIs(d, c, x, y);
    WidenedIs(c, d, y, x);
    hide Widened;
    var l := PieceOf(p, Widened(c, x)) + PieceOf(q, Widened(d, y));
    var r := PieceOf(q, Widened(d, x)) + PieceOf(p, Widened(c, y));
    SamePiece(p, q, c, d);
    if l == r {
      assert l[(p, Widened(c, x))] == r[(p, Widened(c, x))];
      assert l[(q, Widened(d, y))] == r[(q, Widened(d, y))];
    }
  }

  lemma SamePiece(p: string, q: string, c: string, d: string)
    ensures PieceOf(p, c) == PieceOf(q, d) <==> p == q && (p == "" || c == d)
  {
    if p != "" {
      assert PieceOf(p, c)[(p, c)] == 1;
    }
    if q != "" {
      assert PieceOf(q, d)[(q, d)] == 1;
    }
  }

  // ----- bags of blocks

  lemma {:induction false} AttributedUpdate(bs: seq<Block>, j: nat, b: Block, norm: string -> string)
    requires j < |bs|
    ensures Attributed(bs[j := b], norm) + Piece(bs[j], norm) == Attributed(bs, norm) + Piece(b, norm)
  {
    hide Piece;
    if j == 0 {
      assert bs[0 := b][1..] == bs[1..];
    } else {
      AttributedUpdate(bs[1..], j - 1, b, norm);
      assert bs[j := b][1..] == bs[1..][j - 1 := b];
      var h, rest, now := Piece(bs[0], norm), Attributed(bs[1..], norm), Attributed(bs[1..][j - 1 := b], norm);
      assert (h + now) + Piece(bs[j], norm) == h + (now + Piece(bs[j], norm));
      assert (h + rest) + Piece(b, norm) == h + (rest + Piece(b, norm));
    }
  }

  function Swapped(ds: seq<Block>, i: nat, j: nat): seq<Block>
    requires i < |ds| && j < |ds|
  {
    ds[i := ds[j]][j := ds[i]]
  }

  /** Printing two diagnostics in each other's place is invisible exactly when the same words follow
      in both places, or the two are the same for the fingerprints. */
  lemma SwapShowsIff(ds: seq<Block>, seps: seq<string>, i: nat, j: nat, norm: string -> string)
    requires |seps| == |ds| && AllPrinted(ds) && i < j < |ds|
    ensures Attributed(Interleaved(Swapped(ds, i, j), seps), norm) == Attributed(Interleaved(ds, seps), norm)
       <==> Collapse(seps[i]) == Collapse(seps[j]) || Piece(ds[i], norm) == Piece(ds[j], norm)
  {
    hide Attributed, Piece, Collapse, Printed;
    var d, e, x, y := ds[i], ds[j], seps[i], seps[j];
    var bs := Interleaved(ds, seps);
    var mid := bs[i := Followed(e, x)];
    assert Interleaved(Swapped(ds, i, j), seps) == mid[j := Followed(d, y)];
    AttributedUpdate(bs, i, Followed(e, x), norm);
    AttributedUpdate(mid, j, Followed(d, y), norm);
    assert mid[j] == Followed(e, y);
    CrossShowsIff(d, e, x, y, norm);
    Exchange(Attributed(bs, norm), Attributed(mid, norm), Attributed(mid[j := Followed(d, y)], norm),
      Piece(Followed(d, x), norm), Piece(Followed(e, y), norm), Piece(Followed(e, x), norm), Piece(Followed(d, y),
        norm));
  }

  lemma Exchange<T>(a: multiset<T>, m: multiset<T>, b: multiset<T>, p: multiset<T>, q: multiset<T>, r: multiset<T>,
    s: multiset<T>)
    requires m + p == a + r && b + q == m + s
    ensures b == a <==> p + q == r + s
  {
    forall x ensures b[x] + p[x] + q[x] == a[x] + r[x] + s[x] {
      assert (m + p)[x] == (a + r)[x] && (b + q)[x] == (m + s)[x];
    }
    if p + q == r + s {
      forall x ensures b[x] == a[x] {
        assert (p + q)[x] == (r + s)[x];
      }
    }
    if b == a {
      forall x ensures (p + q)[x] == (r + s)[x] {
      }
    }
  }

  // ----- one separator, and a text after the last diagnostic

  function Repeated(sep: string, n: nat): (seps: seq<string>)
    ensures |seps| == n && forall k :: 0 <= k < n ==> seps[k] == sep
  {
    seq(n, _ => sep)
  }

  lemma {:induction false} AttributedSplit(bs: seq<Block>, j: nat, norm: string -> string)
    requires j < |bs|
    ensures Attributed(bs, norm) == Piece(bs[j], norm) + Attributed(bs[..j] + bs[j + 1..], norm)
  {
    hide Piece;
    if j == 0 {
      assert bs[..0] + bs[1..] == bs[1..];
    } else {
      AttributedSplit(bs[1..], j - 1, norm);
      assert bs[1..][j - 1] == bs[j];
      var rest := bs[..j] + bs[j + 1..];
      assert rest[0] == bs[0] && rest[1..] == bs[1..][..j - 1] + bs[1..][j..];
    }
  }

  /** The blocks of a log with one separator throughout. */
  function Uniform(ds: seq<Block>, sep: string): seq<Block> { Interleaved(ds, Repeated(sep, |ds|)) }

  lemma UniformWithout(ds: seq<Block>, j: nat, sep: string, norm: string -> string)
    requires j < |ds|
    ensures Attributed(Uniform(ds, sep), norm) ==
            Piece(Followed(ds[j], sep), norm) + Attributed(Uniform(ds[..j] + ds[j + 1..], sep), norm)
  {
    hide Piece, Attributed;
    var bs := Uniform(ds, sep);
    AttributedSplit(bs, j, norm);
    assert bs[..j] + bs[j + 1..] == Uniform(ds[..j] + ds[j + 1..], sep);
  }

  /** With one separator throughout, only the bag of diagnostics counts. */
  lemma {:induction false} UniformPermutes(ds: seq<Block>, es: seq<Block>, sep: string, norm: string -> string)
    requires multiset(ds) == multiset(es)
    ensures |ds| == |es| && Attributed(Uniform(ds, sep), norm) == Attributed(Uniform(es, sep), norm)
  {
    hide Piece, Attributed, Uniform;
    assert |ds| == |multiset(ds)| == |es|;
    if ds == [] {
      assert es == [];
    } else {
      assert ds[0] in multiset(es);
      var j :| 0 <= j < |es| && es[j] == ds[0];
      WithoutOne(ds, es, j);
      UniformPermutes(ds[1..], es[..j] + es[j + 1..], sep, norm);
      UniformWithout(ds, 0, sep, norm);
      UniformWithout(es, j, sep, norm);
      assert ds[..0] + ds[0 + 1..] == ds[1..];
    }
  }

  lemma WithoutOne(ds: seq<Block>, es: seq<Block>, j: nat)
    requires ds != [] && j < |es| && es[j] == ds[0] && multiset(ds) == multiset(es)
    ensures multiset(ds[1..]) == multiset(es[..j] + es[j + 1..])
  {
    var rest := es[..j] + es[j + 1..];
    assert ds == [ds[0]] + ds[1..];
    assert es == es[..j] + [es[j]] + es[j + 1..];
    assert multiset(ds[1..]) == multiset(ds) - multiset{ds[0]};
    assert multiset(rest) == multiset(es) - multiset{es[j]};
  }

  /** What follows each diagnostic of a log with `lead` before every location and `tail` at the end. */
  function LedBy(lead: string, n: nat, tail: string): (seps: seq<string>)
    ensures |seps| == n && forall k :: 0 <= k < n ==> seps[k] == if k == n - 1 then tail else lead
  {
    seq(n, k => if k == n - 1 then tail else lead)
  }

  function Last(ds: seq<Block>): Block
    requires ds != []
  {
    ds[|ds| - 1]
  }

  /** Only the last diagnostic goes without a lead after it, and has the tail instead. */
  lemma OnlyTheLastHasTheTail(ds: seq<Block>, lead: string, tail: string, norm: string -> string)
    requires ds != []
    ensures Attributed(Interleaved(ds, LedBy(lead, |ds|, tail)), norm) + Piece(Followed(Last(ds), lead), norm)
         == Attributed(Uniform(ds, lead), norm) + Piece(Followed(Last(ds), tail), norm)
  {
    hide Piece, Attributed;
    var bs, n := Uniform(ds, lead), |ds| - 1;
    AttributedUpdate(bs, n, Followed(Last(ds), tail), norm);
    assert bs[n := Followed(Last(ds), tail)] == Interleaved(ds, LedBy(lead, |ds|, tail));
  }

  /** Two orders of the same diagnostics give the same bags exactly when the tail has the words of the
      lead, or the same diagnostic is last. */
  lemma OrderShowsIff(ds: seq<Block>, es: seq<Block>, lead: string, tail: string, norm: string -> string)
    requires ds != [] && es != [] && multiset(ds) == multiset(es) && AllPrinted(ds) && AllPrinted(es)
    ensures Attributed(Interleaved(ds, LedBy(lead, |ds|, tail)), norm)
         == Attributed(Interleaved(es, LedBy(lead, |es|, tail)), norm)
       <==> Collapse(lead) == Collapse(tail) || Piece(Last(ds), norm) == Piece(Last(es), norm)
  {
    hide Attributed, Interleaved, Uniform, LedBy, Piece, Collapse, Printed;
    var d, e := Last(ds), Last(es);
    UniformPermutes(ds, es, lead, norm);
    OnlyTheLastHasTheTail(ds, lead, tail, norm);
    OnlyTheLastHasTheTail(es, lead, tail, norm);
    CrossShowsIff(d, e, tail, lead, norm);
    var a := Attributed(Interleaved(ds, LedBy(lead, |ds|, tail)), norm);
    var b := Attributed(Interleaved(es, LedBy(lead, |es|, tail)), norm);
    Cancel(a, b, Attributed(Uniform(ds, lead), norm), Piece(Followed(d, lead), norm), Piece(Followed(e, lead), norm),
      Piece(Followed(d, tail), norm), Piece(Followed(e, tail), norm));
  }

  lemma Cancel<T>(a: multiset<T>, b: multiset<T>, all: multiset<T>, dl: multiset<T>, el: multiset<T>, d: multiset<T>,
    e: multiset<T>)
    requires a + dl == all + d && b + el == all + e
    ensures a == b <==> d + el == e + dl
  {
    forall x ensures a[x] + dl[x] == all[x] + d[x] && b[x] + el[x] == all[x] + e[x] {
      assert (a + dl)[x] == (all + d)[x] && (b + el)[x] == (all + e)[x];
    }
    if d + el == e + dl {
      forall x ensures a[x] == b[x] {
        assert (d + el)[x] == (e + dl)[x];
      }
    }
    if a == b {
      forall x ensures (d + el)[x] == (e + dl)[x] {
      }
    }
  }

  // ----- all orders at once

  predicate SameWords(seps: seq<string>) {
    forall i, j :: 0 <= i < |seps| && 0 <= j < |seps| ==> Collapse(seps[i]) == Collapse(seps[j])
  }

  predicate SamePieces(ds: seq<Block>, norm: string -> string) {
    forall i, j :: 0 <= i < |ds| && 0 <= j < |ds| ==> Piece(ds[i], norm) == Piece(ds[j], norm)
  }

  /** No order of the diagnostics can be told from another. */
  ghost predicate OrderNeverShows(ds: seq<Block>, seps: seq<string>, norm: string -> string)
    requires |seps| == |ds|
  {
    forall es :: multiset(es) == multiset(ds) ==> SameBlocks(es, ds, seps, norm)
  }

  ghost predicate SameBlocks(es: seq<Block>, ds: seq<Block>, seps: seq<string>, norm: string -> string)
    requires |seps| == |ds|
  {
    |es| == |ds| && Attributed(Interleaved(es, seps), norm) == Attributed(Interleaved(ds, seps), norm)
  }

  lemma {:induction false} PiecewiseSame(bs: seq<Block>, cs: seq<Block>, norm: string -> string)
    requires |bs| == |cs| && forall k :: 0 <= k < |bs| ==> Piece(bs[k], norm) == Piece(cs[k], norm)
    ensures Attributed(bs, norm) == Attributed(cs, norm)
  {
    hide Piece;
    if bs != [] {
      PiecewiseSame(bs[1..], cs[1..], norm);
    }
  }

  lemma FollowedSame(d: Block, e: Block, x: string, y: string, norm: string -> string)
    requires Printed(d) && Printed(e) && Piece(d, norm) == Piece(e, norm) && Collapse(x) == Collapse(y)
    ensures Piece(Followed(d, x), norm) == Piece(Followed(e, y), norm)
  {
    FollowedCollapses(d, x);
    FollowedCollapses(e, y);
    hide Collapse, Widened;
    SamePiece(norm(d.path), norm(e.path), Collapse(d.text), Collapse(e.text));
  }

  lemma SameWordsNeverShow(ds: seq<Block>, es: seq<Block>, seps: seq<string>, norm: string -> string)
    requires |seps| == |ds| && AllPrinted(ds) && AllPrinted(es) && SameWords(seps) && multiset(es) == multiset(ds)
    ensures SameBlocks(es, ds, seps, norm)
  {
    hide Printed, Piece, Attributed, Collapse;
    assert |es| == |multiset(es)| == |ds|;
    if ds != [] {
      var one := Repeated(seps[0], |ds|);
      forall k | 0 <= k < |ds|
        ensures Piece(Interleaved(ds, seps)[k], norm) == Piece(Interleaved(ds, one)[k], norm)
        ensures Piece(Interleaved(es, seps)[k], norm) == Piece(Interleaved(es, one)[k], norm)
      {
        FollowedSame(ds[k], ds[k], seps[k], one[k], norm);
        FollowedSame(es[k], es[k], seps[k], one[k], norm);
      }
      PiecewiseSame(Interleaved(ds, seps), Interleaved(ds, one), norm);
      PiecewiseSame(Interleaved(es, seps), Interleaved(es, one), norm);
      UniformPermutes(ds, es, seps[0], norm);
    } else {
      assert es == [];
    }
  }

  lemma SamePiecesNeverShow(ds: seq<Block>, es: seq<Block>, seps: seq<string>, norm: string -> string)
    requires |seps| == |ds| && AllPrinted(ds) && AllPrinted(es) && SamePieces(ds, norm) && multiset(es) == multiset(ds)
    ensures SameBlocks(es, ds, seps, norm)
  {
    hide Printed, Piece, Attributed, Collapse;
    assert |es| == |multiset(es)| == |ds|;
    forall k | 0 <= k < |ds| ensures Piece(Interleaved(es, seps)[k], norm) == Piece(Interleaved(ds, seps)[k], norm) {
      assert es[k] in multiset(ds);
      var j :| 0 <= j < |ds| && ds[j] == es[k];
      FollowedSame(es[k], ds[k], seps[k], seps[k], norm);
    }
    PiecewiseSame(Interleaved(es, seps), Interleaved(ds, seps), norm);
  }

  lemma PermutedPrinted(ds: seq<Block>, es: seq<Block>)
    requires AllPrinted(ds) && multiset(es) == multiset(ds)
    ensures AllPrinted(es)
  {
    forall k | 0 <= k < |es| ensures Printed(es[k]) {
      assert es[k] in multiset(ds);
      var j :| 0 <= j < |ds| && ds[j] == es[k];
    }
  }

  /** Two places with other words and, somewhere, two other diagnostics: then there are two places that
      differ in both. */
  lemma SomePairDiffers(ds: seq<Block>, seps: seq<string>, norm: string -> string) returns (i: nat, j: nat)
    requires |seps| == |ds| && !SameWords(seps) && !SamePieces(ds, norm)
    ensures i < j < |ds| && Collapse(seps[i]) != Collapse(seps[j]) && Piece(ds[i], norm) != Piece(ds[j], norm)
  {
    hide Collapse, Piece;
    var a, b :| 0 <= a < |seps| && 0 <= b < |seps| && Collapse(seps[a]) != Collapse(seps[b]);
    if Piece(ds[a], norm) == Piece(ds[b], norm) {
      var x, y :| 0 <= x < |ds| && 0 <= y < |ds| && Piece(ds[x], norm) != Piece(ds[y], norm);
      var c := if Piece(ds[x], norm) != Piece(ds[a], norm) then x else y;
      if Collapse(seps[c]) != Collapse(seps[a]) {
        b := c;
      } else {
        a := c;
      }
    }
    i, j := if a < b then a else b, if a < b then b else a;
  }

  lemma SwappedPermutes(ds: seq<Block>, i: nat, j: nat)
    requires i < j < |ds|
    ensures multiset(Swapped(ds, i, j)) == multiset(ds) && |Swapped(ds, i, j)| == |ds|
  {
  }

  /** Reordering can never be seen if and only if the same words stand everywhere between and after the
      diagnostics, or the diagnostics are all the same for the fingerprints. */
  lemma OrderNeverShowsIff(ds: seq<Block>, seps: seq<string>, norm: string -> string)
    requires |seps| == |ds| && AllPrinted(ds)
    ensures OrderNeverShows(ds, seps, norm) <==> SameWords(seps) || SamePieces(ds, norm)
  {
    hide AllPrinted, SameWords, SamePieces, SameBlocks;
    if SameWords(seps) || SamePieces(ds, norm) {
      forall es | multiset(es) == multiset(ds) ensures SameBlocks(es, ds, seps, norm) {
        PermutedPrinted(ds, es);
        if SameWords(seps) {
          SameWordsNeverShow(ds, es, seps, norm);
        } else {
          SamePiecesNeverShow(ds, es, seps, norm);
        }
      }
    } else {
      var i, j := SomePairDiffers(ds, seps, norm);
      SwappedPermutes(ds, i, j);
      SwapIsSeen(ds, seps, i, j, norm);
    }
  }

  lemma SwapIsSeen(ds: seq<Block>, seps: seq<string>, i: nat, j: nat, norm: string -> string)
    requires |seps| == |ds| && AllPrinted(ds) && i < j < |ds|
    requires Collapse(seps[i]) != Collapse(seps[j]) && Piece(ds[i], norm) != Piece(ds[j], norm)
    ensures !SameBlocks(Swapped(ds, i, j), ds, seps, norm)
  {
    hide Attributed, Piece, Collapse, AllPrinted, Interleaved, Swapped;
    SwapShowsIff(ds, seps, i, j, norm);
  }
}
