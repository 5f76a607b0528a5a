/** FileDiagnostics of fix_file_progress.go: a compiler log cut into one block per diagnostic, and one
    fingerprint per file.  The path normalisation and the digest are parameters. */
module FileDiagnostics {
  import opened Text
  import opened GoStrings
  import opened Sorting
  import opened Words
  import opened LogPattern

  datatype Block = Block(path: string, text: string)

  /** Each diagnostic with the text it owns: from its own match to the next one, or to the end. */
  function Owned(s: string): seq<Block>
    decreases |s|
  {
    match Find(s)
    case None => []
    case Some(m) => [Block(m.path, s[m.at..Stop(s, m)])] + Owned(s[m.end..])
  }

  function Stop(s: string, m: Match): (stop: nat)
    requires Find(s) == Some(m)
    ensures m.end <= stop <= |s|
  {
    match Find(s[m.end..])
    case None => |s|
    case Some(n) => m.end + n.at
  }

  lemma OwnedStep(s: string, m: Match)
    requires Find(s) == Some(m)
    ensures Owned(s) == [Block(m.path, s[m.at..Stop(s, m)])] + Owned(s[m.end..])
  {
  }

  function Texts(bs: seq<Block>): string {
    if bs == [] then "" else bs[0].text + Texts(bs[1..])
  }

  /** The blocks are disjoint, leave no gap and reach the end: put together they are the log from its
      first diagnostic on, and there is one for each match. */
  lemma {:induction false} BlocksTileTheLog(s: string)
    ensures Find(s).None? ==> Owned(s) == []
    ensures Find(s).Some? ==>
              && Owned(s) != []
              && Owned(s)[0].path == Find(s).value.path
              && Texts(Owned(s)) == s[Find(s).value.at..]
    decreases |s|
  {
    hide Texts, IsBlank, Find;
    match Find(s)
    case None =>
    case Some(m) =>
      var rest := s[m.end..];
      BlocksTileTheLog(rest);
      TextsCons(Block(m.path, s[m.at..Stop(s, m)]), Owned(rest));
      NoTexts();
      match Find(rest)
      case None =>
      case Some(n) => Regroup(s, m.at, m.end, n.at);
  }

  lemma TextsCons(b: Block, bs: seq<Block>)
    ensures Texts([b] + bs) == b.text + Texts(bs)
  {
    assert ([b] + bs)[1..] == bs;
  }

  lemma NoTexts()
    ensures Texts([]) == ""
  {
  }

  lemma Regroup(s: string, a: nat, e: nat, n: nat)
    requires a <= e && e + n <= |s|
    ensures s[a..e + n] + s[e..][n..] == s[a..]
  {
  }

  // ----- the buckets and the fingerprints

  /** What the blocks say about file `p`, in the order of the log. */
  function Bucket(bs: seq<Block>, norm: string -> string, p: string): seq<string> {
    if bs == [] then []
    else (if norm(bs[0].path) == p then [Collapse(bs[0].text)] else []) + Bucket(bs[1..], norm, p)
  }

  function Paths(bs: seq<Block>, norm: string -> string): set<string> {
    set k | 0 <= k < |bs| && norm(bs[k].path) != "" :: norm(bs[k].path)
  }

  function Fingerprint(bs: seq<Block>, norm: string -> string, digest: string -> string, p: string): string
    requires Bucket(bs, norm, p) != []
  {
    digest(Join(Sort(Bucket(bs, norm, p)), "\n"))
  }

  lemma {:induction false} BucketAppend(bs: seq<Block>, b: Block, norm: string -> string, p: string)
    ensures Bucket(bs + [b], norm, p) == Bucket(bs, norm, p) + (if norm(b.path) == p then [Collapse(b.text)] else [])
  {
    if bs != [] {
      assert (bs + [b])[1..] == bs[1..] + [b];
      BucketAppend(bs[1..], b, norm, p);
    }
  }

  lemma {:induction false} BucketNotEmpty(bs: seq<Block>, norm: string -> string, p: string)
    requires p != ""
    ensures Bucket(bs, norm, p) != [] <==> p in Paths(bs, norm)
  {
    if bs != [] {
      BucketNotEmpty(bs[1..], norm, p);
      if p in Paths(bs, norm) {
        var k :| 0 <= k < |bs| && norm(bs[k].path) != "" && norm(bs[k].path) == p;
        assert k > 0 ==> bs[1..][k - 1] == bs[k];
      }
    }
  }

  /** The result, file by file: an entry for each named file, over the sorted list of its blocks. */
  ghost predicate IsResult(out: map<string, string>, bs: seq<Block>, norm: string -> string, digest: string -> string) {
    && out.Keys == Paths(bs, norm)
    && forall p :: p in out ==> Bucket(bs, norm, p) != [] && out[p] == Fingerprint(bs, norm, digest, p)
  }

  ghost predicate Filed(buckets: map<string, seq<string>>, bs: seq<Block>, norm: string -> string) {
    && buckets.Keys == Paths(bs, norm)
    && forall p :: p in buckets ==> buckets[p] == Bucket(bs, norm, p)
  }

  method FileBlock(buckets: map<string, seq<string>>, b: Block, norm: string -> string, ghost bs: seq<Block>)
    returns (filed: map<string, seq<string>>)
    requires Filed(buckets, bs, norm)
    ensures Filed(filed, bs + [b], norm)
  {
    var path := norm(b.path);
    filed := buckets;
    if path != "" {
      filed := filed[path := (if path in filed then filed[path] else []) + [Collapse(b.text)]];
      BucketNotEmpty(bs, norm, path);
    }
    ghost var cs := bs + [b];
    forall p ensures p in Paths(cs, norm) <==> p in Paths(bs, norm) || (p == path && p != "") {
      if p in Paths(bs, norm) {
        var k :| 0 <= k < |bs| && norm(bs[k].path) != "" && norm(bs[k].path) == p;
        assert cs[k] == bs[k];
      }
      if p == path && p != "" {
        assert cs[|bs|] == b;
      }
    }
    forall p ensures Bucket(cs, norm, p) == Bucket(bs, norm, p) + (if path == p then [Collapse(b.text)] else []) {
      BucketAppend(bs, b, norm, p);
    }
  }

  method FileDiagnostics(norm: string -> string, digest: string -> string, output: string)
    returns (out: map<string, string>)
    ensures IsResult(out, Owned(output), norm, digest)
  {
    hide Owned, Filed, IsResult, Find;
    out := map[];
    NothingFiled(norm);
    if IsBlank(output) {
      NothingOwned(output);
      NothingToReport(norm, digest);
      return;
    }
    var buckets: map<string, seq<string>> := map[];
    var offset := 0;
    ghost var done: seq<Block> := [];
    assert output[0..] == output;
    while true
      invariant offset <= |output|
      invariant Owned(output) == done + Owned(output[offset..])
      invariant Filed(buckets, done, norm)
      decreases |output| - offset
    {
      var m := Find(output[offset..]);
      if m == None {
        NothingOwned(output[offset..]);
        break;
      }
      buckets, offset, done := DiagnosticRound(norm, output, buckets, offset, m.value, done);
    }
    assert done + [] == done;
    out := Fingerprints(buckets, norm, digest, done);
  }

  method DiagnosticRound(norm: string -> string, output: string, buckets: map<string, seq<string>>, offset: nat,
    m: Match, ghost done: seq<Block>)
    returns (filed: map<string, seq<string>>, onward: nat, ghost finished: seq<Block>)
    requires offset <= |output| && Find(output[offset..]) == Some(m)
    requires Filed(buckets, done, norm)
    ensures offset < onward <= |output|
    ensures done + Owned(output[offset..]) == finished + Owned(output[onward..])
    ensures Filed(filed, finished, norm)
  {
    hide Filed, IsBlank, Owned, Find;
    var start, stop := offset + m.at, |output|;
    var next := Find(output[offset + m.end..]);
    if next.Some? {
      stop := offset + m.end + next.value.at;
    }
    var block := Block(m.path, output[start..stop]);
    BlockOf(output, offset, block);
    filed := FileBlock(buckets, block, norm, done);
    onward, finished := offset + m.end, done + [block];
    assert done + ([block] + Owned(output[onward..])) == finished + Owned(output[onward..]);
  }

  lemma NothingFiled(norm: string -> string)
    ensures Filed(map[], [], norm)
  {
  }

  lemma NothingToReport(norm: string -> string, digest: string -> string)
    ensures IsResult(map[], [], norm, digest)
  {
  }

  lemma NothingOwned(s: string)
    requires (IsBlank(s) || Find(s).None?)
    ensures Owned(s) == []
  {
  }

  lemma BlockOf(s: string, offset: nat, b: Block)
    requires offset <= |s| && Find(s[offset..]).Some?
    requires var m := Find(s[offset..]).value;
             var next := Find(s[offset + m.end..]);
             b == Block(m.path, s[offset + m.at..if next.Some? then offset + m.end + next.value.at else |s|])
    ensures Owned(s[offset..]) == [b] + Owned(s[offset + Find(s[offset..]).value.end..])
  {
    hide Owned, IsBlank, Find;
    var rest := s[offset..];
    var m := Find(rest).value;
    var stop := Stop(rest, m);
    DropThenSlice(s, offset, m.at, m.end);
    DropThenSlice(s, offset, m.at, stop);
    OwnedStep(rest, m);
  }

  lemma DropThenSlice(s: string, offset: nat, a: nat, b: nat)
    requires a <= b && offset + b <= |s|
    ensures s[offset..][b..] == s[offset + b..] && s[offset..][a..b] == s[offset + a..offset + b]
  {
  }

  method Fingerprints(buckets: map<string, seq<string>>, norm: string -> string, digest: string -> string,
    ghost bs: seq<Block>)
    returns (out: map<string, string>)
    requires Filed(buckets, bs, norm)
    ensures IsResult(out, bs, norm, digest)
  {
    out := map[];
    var left := buckets.Keys;
    while left != {}
      invariant left <= buckets.Keys && out.Keys == buckets.Keys - left
      invariant forall p :: p in out ==> Bucket(bs, norm, p) != [] && out[p] == Fingerprint(bs, norm, digest, p)
      decreases left
    {
      var p :| p in left;
      BucketNotEmpty(bs, norm, p);
      out := out[p := digest(Join(Sort(buckets[p]), "\n"))];
      left := left - {p};
    }
  }

  // ----- what the result depends on

  /** The blocks of the named files, as a bag of (file, collapsed text). */
  function Attributed(bs: seq<Block>, norm: string -> string): multiset<(string, string)> {
    if bs == [] then multiset{} else Piece(bs[0], norm) + Attributed(bs[1..], norm)
  }

  function Piece(b: Block, norm: string -> string): multiset<(string, string)> {
    if norm(b.path) == "" then multiset{} else multiset{(norm(b.path), Collapse(b.text))}
  }

  lemma {:induction false} BucketCounts(bs: seq<Block>, norm: string -> string, p: string, x: string)
    requires p != ""
    ensures multiset(Bucket(bs, norm, p))[x] == Attributed(bs, norm)[(p, x)]
  {
    if bs != [] {
      BucketCounts(bs[1..], norm, p, x);
    }
  }

  ghost predicate SameBuckets(bs: seq<Block>, cs: seq<Block>, norm: string -> string) {
    forall p :: p != "" ==> multiset(Bucket(bs, norm, p)) == multiset(Bucket(cs, norm, p))
  }

  lemma SameBucketsIff(bs: seq<Block>, cs: seq<Block>, norm: string -> string)
    ensures SameBuckets(bs, cs, norm) <==> Attributed(bs, norm) == Attributed(cs, norm)
  {
    hide Bucket, Attributed;
    forall p, x | p != ""
      ensures multiset(Bucket(bs, norm, p))[x] == Attributed(bs, norm)[(p, x)]
      ensures multiset(Bucket(cs, norm, p))[x] == Attributed(cs, norm)[(p, x)]
    {
      BucketCounts(bs, norm, p, x);
      BucketCounts(cs, norm, p, x);
    }
    if SameBuckets(bs, cs, norm) {
      forall y: (string, string) ensures Attributed(bs, norm)[y] == Attributed(cs, norm)[y] {
        if y.0 == "" {
          NothingUnderNoName(bs, norm, y.1);
          NothingUnderNoName(cs, norm, y.1);
        } else {
          assert multiset(Bucket(bs, norm, y.0))[y.1] == multiset(Bucket(cs, norm, y.0))[y.1];
        }
      }
    }
  }

  lemma {:induction false} NothingUnderNoName(bs: seq<Block>, norm: string -> string, x: string)
    ensures Attributed(bs, norm)[("", x)] == 0
  {
    if bs != [] {
      NothingUnderNoName(bs[1..], norm, x);
    }
  }

  lemma {:induction false} BucketOneLiners(bs: seq<Block>, norm: string -> string, p: string)
    ensures AllFreeOf(Bucket(bs, norm, p), '\n')
  {
    if bs != [] {
      BucketOneLiners(bs[1..], norm, p);
      CollapseIsOneLine(bs[0].text);
    }
  }

  lemma FreeOfPermutes(xs: seq<string>, ys: seq<string>, c: char)
    requires multiset(xs) == multiset(ys) && AllFreeOf(xs, c)
    ensures AllFreeOf(ys, c)
  {
    forall k | 0 <= k < |ys| ensures FreeOf(ys[k], c) {
      assert ys[k] in multiset(xs);
      var j :| 0 <= j < |xs| && xs[j] == ys[k];
    }
  }

  /** The text digested for file `p`: its blocks in sorted order, a line each. */
  function Digested(bs: seq<Block>, norm: string -> string, p: string): string
    requires Bucket(bs, norm, p) != []
  {
    Join(Sort(Bucket(bs, norm, p)), "\n")
  }

  ghost predicate SameBag(bs: seq<Block>, cs: seq<Block>, norm: string -> string, p: string) {
    multiset(Bucket(bs, norm, p)) == multiset(Bucket(cs, norm, p))
  }

  /** The digest takes two different texts of file `p` for one. */
  ghost predicate Collides(bs: seq<Block>, cs: seq<Block>, norm: string -> string, digest: string -> string,
    p: string) {
    && Bucket(bs, norm, p) != [] && Bucket(cs, norm, p) != []
    && Digested(bs, norm, p) != Digested(cs, norm, p)
    && digest(Digested(bs, norm, p)) == digest(Digested(cs, norm, p))
  }

  /** The text tells the bag of collapsed blocks, and nothing more. */
  lemma DigestedIsTheBag(bs: seq<Block>, cs: seq<Block>, norm: string -> string, p: string)
    requires Bucket(bs, norm, p) != [] && Bucket(cs, norm, p) != []
    ensures Digested(bs, norm, p) == Digested(cs, norm, p) <==> SameBag(bs, cs, norm, p)
  {
    var b, c := Bucket(bs, norm, p), Bucket(cs, norm, p);
    BucketOneLiners(bs, norm, p);
    BucketOneLiners(cs, norm, p);
    hide Bucket, AllFreeOf, FreeOf;
    FreeOfPermutes(b, Sort(b), '\n');
    FreeOfPermutes(c, Sort(c), '\n');
    if multiset(b) == multiset(c) {
      SortIsCanonical(b, c);
    }
    SortNotEmpty(b);
    SortNotEmpty(c);
    SplitOfJoin(Sort(b), '\n');
    SplitOfJoin(Sort(c), '\n');
  }

  lemma SortNotEmpty(xs: seq<string>)
    requires xs != []
    ensures Sort(xs) != []
  {
    assert xs[0] in multiset(xs);
  }

  /** The entries of two results for file `p` agree. */
  predicate AgreeOn(a: map<string, string>, b: map<string, string>, p: string) {
    (p in a <==> p in b) && (p in a && p in b ==> a[p] == b[p])
  }

  lemma AgreeIff(a: map<string, string>, b: map<string, string>, bs: seq<Block>, cs: seq<Block>,
    norm: string -> string, digest: string -> string, p: string)
    requires p != ""
    requires IsResult(a, bs, norm, digest) && IsResult(b, cs, norm, digest)
    ensures AgreeOn(a, b, p) <==> SameBag(bs, cs, norm, p) || Collides(bs, cs, norm, digest, p)
  {
    hide Bucket, Paths, Join, Sort;
    BucketNotEmpty(bs, norm, p);
    BucketNotEmpty(cs, norm, p);
    var x, y := Bucket(bs, norm, p), Bucket(cs, norm, p);
    if x != [] && y != [] {
      DigestedIsTheBag(bs, cs, norm, p);
    } else {
      assert |multiset(x)| == |x| && |multiset(y)| == |y|;
    }
  }

  /** Two logs get the same result exactly when every file has the same bag of blocks in both, or two
      texts the digest does not tell apart. */
  lemma ResultIsTheBags(a: map<string, string>, b: map<string, string>, bs: seq<Block>, cs: seq<Block>,
    norm: string -> string, digest: string -> string)
    requires IsResult(a, bs, norm, digest) && IsResult(b, cs, norm, digest)
    ensures a == b <==> forall p :: p != "" ==> SameBag(bs, cs, norm, p) || Collides(bs, cs, norm, digest, p)
    ensures SameBuckets(bs, cs, norm) ==> a == b
  {
    hide Bucket, Fingerprint, SameBag, Collides;
    NoEmptyName(bs, norm);
    NoEmptyName(cs, norm);
    hide Paths;
    forall p | p != "" ensures AgreeOn(a, b, p) <==> SameBag(bs, cs, norm, p) || Collides(bs, cs, norm, digest, p) {
      AgreeIff(a, b, bs, cs, norm, digest, p);
    }
    hide IsResult;
    if SameBuckets(bs, cs, norm) {
      SameBucketsAreBags(bs, cs, norm);
    }
    if forall p :: p != "" ==> SameBag(bs, cs, norm, p) || Collides(bs, cs, norm, digest, p) {
      EqualByKey(a, b);
    }
  }

  lemma SameBucketsAreBags(bs: seq<Block>, cs: seq<Block>, norm: string -> string)
    requires SameBuckets(bs, cs, norm)
    ensures forall p :: p != "" ==> SameBag(bs, cs, norm, p)
  {
  }

  lemma EqualByKey(a: map<string, string>, b: map<string, string>)
    requires forall p :: p in a || p in b ==> AgreeOn(a, b, p)
    ensures a == b
  {
    forall p ensures p in a.Keys <==> p in b.Keys {
      assert p in a || p in b ==> AgreeOn(a, b, p);
    }
    assert a.Keys == b.Keys;
    forall p | p in a ensures a[p] == b[p] {
      assert AgreeOn(a, b, p);
    }
  }

  lemma NoEmptyName(bs: seq<Block>, norm: string -> string)
    ensures "" !in Paths(bs, norm)
  {
  }
}
