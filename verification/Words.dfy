/** collapseWhitespace of fix_primary_progress.go: the words of a text, one space between them. */
module Words {
  import opened Text
  import opened GoStrings

  function WordLen(s: string): (n: nat)
    ensures n <= |s| && forall k :: 0 <= k < n ==> !IsSpace(s[k])
    ensures n < |s| ==> IsSpace(s[n])
  {
    if s == "" || IsSpace(s[0]) then 0 else 1 + WordLen(s[1..])
  }

  /** Go's strings.Fields. */
  function Fields(s: string): seq<string>
    decreases |s|
  {
    if s == "" then []
    else if IsSpace(s[0]) then Fields(s[1..])
    else
      var n := WordLen(s);
      [s[..n]] + Fields(s[n..])
  }

  function Spaced(words: seq<string>): string { if words == [] then "" else Join(words, " ") }

  function Collapse(s: string): string { Spaced(Fields(s)) }

  lemma {:induction false} WordEnds(a: string, b: string)
    requires a != "" && IsSpace(a[|a| - 1])
    ensures WordLen(a + b) == WordLen(a) < |a|
  {
    if !IsSpace(a[0]) {
      WordEnds(a[1..], b);
      assert (a + b)[1..] == a[1..] + b;
    }
  }

  /** A text that ends in white space keeps its words apart from what follows. */
  lemma {:induction false} FieldsConcat(a: string, b: string)
    requires a == "" || IsSpace(a[|a| - 1])
    ensures Fields(a + b) == Fields(a) + Fields(b)
    decreases |a|
  {
    hide IsSpace, Fields, WordLen;
    if a == "" {
      NoFields();
      assert a + b == b;
    } else {
      assert (a + b)[0] == a[0];
      FieldsStep(a);
      FieldsStep(a + b);
      if IsSpace(a[0]) {
        assert (a + b)[1..] == a[1..] + b;
        FieldsConcat(a[1..], b);
      } else {
        WordEnds(a, b);
        var n := WordLen(a);
        assert (a + b)[..n] == a[..n] && (a + b)[n..] == a[n..] + b;
        FieldsConcat(a[n..], b);
      }
    }
  }

  lemma NoFields()
    ensures Fields("") == []
  {
  }

  lemma FieldsStep(s: string)
    requires s != ""
    ensures IsSpace(s[0]) ==> Fields(s) == Fields(s[1..])
    ensures !IsSpace(s[0]) ==> 0 < WordLen(s) && Fields(s) == [s[..WordLen(s)]] + Fields(s[WordLen(s)..])
  {
  }

  lemma {:induction false} NoFieldsIffBlank(s: string)
    ensures Fields(s) == [] <==> IsBlank(s)
    decreases |s|
  {
    if s != "" && IsSpace(s[0]) {
      NoFieldsIffBlank(s[1..]);
      assert s == [s[0]] + s[1..];
    }
  }

  lemma {:induction false} SpacedConcat(a: seq<string>, b: seq<string>)
    requires a != [] && b != []
    ensures Spaced(a + b) == Spaced(a) + " " + Spaced(b)
  {
    if |a| == 1 {
      JoinCons(a[0], b, " ");
    } else {
      SpacedConcat(a[1..], b);
      assert (a + b)[1..] == a[1..] + b;
    }
  }

  lemma CollapseConcat(a: string, b: string)
    requires !IsBlank(a) && IsSpace(a[|a| - 1])
    ensures Collapse(a + b) == if IsBlank(b) then Collapse(a) else Collapse(a) + " " + Collapse(b)
  {
    FieldsConcat(a, b);
    NoFieldsIffBlank(a);
    NoFieldsIffBlank(b);
    if !IsBlank(b) {
      SpacedConcat(Fields(a), Fields(b));
    } else {
      assert Fields(a) + [] == Fields(a);
    }
  }

  lemma {:induction false} WordsOnOneLine(s: string)
    ensures AllFreeOf(Fields(s), '\n')
    decreases |s|
  {
    if s != "" {
      if IsSpace(s[0]) {
        WordsOnOneLine(s[1..]);
      } else {
        WordsOnOneLine(s[WordLen(s)..]);
      }
    }
  }

  lemma {:induction false} SpacedOnOneLine(words: seq<string>)
    requires AllFreeOf(words, '\n')
    ensures FreeOf(Spaced(words), '\n')
  {
    if |words| > 1 {
      assert AllFreeOf(words[1..], '\n');
      SpacedOnOneLine(words[1..]);
      assert FreeOf(words[0], '\n');
    } else if |words| == 1 {
      assert FreeOf(words[0], '\n');
    }
  }

  lemma CollapseIsOneLine(s: string)
    ensures FreeOf(Collapse(s), '\n')
  {
    WordsOnOneLine(s);
    SpacedOnOneLine(Fields(s));
  }

  // ----- words and what stands between them

  predicate IsWord(w: string) { w != "" && forall k :: 0 <= k < |w| ==> !IsSpace(w[k]) }

  /** Words with white space between them, before the first and after the last: `gaps[k]` stands before
      word `k`. */
  predicate Laid(gaps: seq<string>, words: seq<string>) {
    && |gaps| == |words| + 1
    && (forall k :: 0 <= k < |gaps| ==> IsBlank(gaps[k]))
    && (forall k :: 0 < k < |words| ==> gaps[k] != "")
    && forall k :: 0 <= k < |words| ==> IsWord(words[k])
  }

  function LaidOut(gaps: seq<string>, words: seq<string>): string
    requires |gaps| == |words| + 1
  {
    if words == [] then gaps[0] else gaps[0] + words[0] + LaidOut(gaps[1..], words[1..])
  }

  lemma {:induction false} BlankSkipped(gap: string, s: string)
    requires IsBlank(gap)
    ensures Fields(gap + s) == Fields(s)
  {
    hide IsSpace, Fields;
    if gap == "" {
      assert gap + s == s;
    } else {
      assert IsSpace(gap[0]);
      assert (gap + s)[1..] == gap[1..] + s;
      FieldsStep(gap + s);
      BlankSkipped(gap[1..], s);
    }
  }

  lemma {:induction false} WordRead(w: string, s: string)
    requires (forall k :: 0 <= k < |w| ==> !IsSpace(w[k])) && (s == "" || IsSpace(s[0]))
    ensures WordLen(w + s) == |w|
  {
    hide IsSpace;
    if w == "" {
      assert w + s == s;
    } else {
      assert (w + s)[1..] == w[1..] + s;
      WordRead(w[1..], s);
    }
  }

  lemma LaidTail(gaps: seq<string>, words: seq<string>)
    requires Laid(gaps, words) && words != []
    ensures Laid(gaps[1..], words[1..]) && IsBlank(gaps[0]) && IsWord(words[0])
    ensures var s := LaidOut(gaps[1..], words[1..]); s == "" || IsSpace(s[0])
  {
    var s := LaidOut(gaps[1..], words[1..]);
    if |words| > 1 {
      assert gaps[1] != "" && IsBlank(gaps[1]);
      assert s[0] == gaps[1][0];
    } else {
      assert s == gaps[1] && IsBlank(gaps[1]);
    }
  }

  /** The words of a text are what stands between its white space, and collapsing puts one space between
      them. */
  lemma {:induction false} FieldsAre(gaps: seq<string>, words: seq<string>)
    requires Laid(gaps, words)
    ensures Fields(LaidOut(gaps, words)) == words
    decreases |words|
  {
    if words == [] {
      BlankSkipped(gaps[0], "");
      assert gaps[0] + "" == gaps[0];
    } else {
      LaidTail(gaps, words);
      var w, s := words[0], LaidOut(gaps[1..], words[1..]);
      FieldsAre(gaps[1..], words[1..]);
      BlankSkipped(gaps[0], w + s);
      WordRead(w, s);
      hide Laid, LaidOut, Fields, WordLen, IsSpace;
      FieldsStep(w + s);
      assert (w + s)[0] == w[0] && (w + s)[..|w|] == w && (w + s)[|w|..] == s;
      assert gaps[0] + w + s == gaps[0] + (w + s);
    }
  }

  lemma CollapseIs(gaps: seq<string>, words: seq<string>)
    requires Laid(gaps, words)
    ensures Collapse(LaidOut(gaps, words)) == if words == [] then "" else Join(words, " ")
  {
    FieldsAre(gaps, words);
    hide Fields, Laid, LaidOut;
  }
}
