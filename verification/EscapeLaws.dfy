/** What the escape repair guarantees: the gate's answer on its output, an exact account of what was
    inserted and where, and that no literal changes its meaning. */
module EscapeLaws {
  import opened Text
  import opened EscapeLexer
  import opened EscapeGate

  // ----- the gate on a repaired file

  predicate IsCharLiteral(t: Token) { t.Literal? && t.quote == '\'' }

  function CharOnly(t: Token): Token { if IsCharLiteral(t) then t else Copied(t.Text()) }

  /** The same file with everything but its char literals out of the gate's reach. */
  function OnlyCharLiterals(ts: seq<Token>): seq<Token> {
    if ts == [] then [] else [CharOnly(ts[0])] + OnlyCharLiterals(ts[1..])
  }

  predicate AllLegal(lang: Language, us: seq<Unit>) {
    forall k :: 0 <= k < |us| ==> !IllegalUnit(lang, us[k])
  }

  predicate CharLiteralsLegal(lang: Language, ts: seq<Token>) {
    forall k :: 0 <= k < |ts| && IsCharLiteral(ts[k]) ==> AllLegal(lang, ts[k].body)
  }

  lemma {:induction false} RepairBodyLegal(lang: Language, us: seq<Unit>)
    ensures FirstIllegalUnit(lang, RepairBody(lang, us)).None?
  {
    if us != [] {
      RepairBodyLegal(lang, us[1..]);
      var r := RepairUnit(lang, us[0]);
      var rest := RepairBody(lang, us[1..]);
      assert (r + rest)[1..] == r[1..] + rest;
      if |r| == 2 {
        assert (r[1..] + rest)[1..] == rest;
      }
    }
  }

  lemma {:induction false} RepairBodyNewlines(lang: Language, us: seq<Unit>)
    ensures Newlines(UnitsText(RepairBody(lang, us))) == Newlines(UnitsText(us))
  {
    if us != [] {
      RepairBodyNewlines(lang, us[1..]);
      var r := RepairUnit(lang, us[0]);
      UnitsTextConcat(r, RepairBody(lang, us[1..]));
      NewlinesConcat(UnitsText(r), UnitsText(RepairBody(lang, us[1..])));
      NewlinesConcat(UnitText(us[0]), UnitsText(us[1..]));
      if |r| == 2 {
        assert UnitsText(r) == ['\\', '\\', us[0].c];
      } else {
        assert UnitsText(r) == UnitText(us[0]);
      }
    }
  }

  lemma RepairTokenNewlines(lang: Language, t: Token)
    ensures Newlines(RepairToken(lang, t).Text()) == Newlines(t.Text())
  {
    if Repairable(t) {
      RepairBodyNewlines(lang, t.body);
      var b, c := UnitsText(t.body), UnitsText(RepairBody(lang, t.body));
      NewlinesConcat("\"" + b, "\"");
      NewlinesConcat("\"" + c, "\"");
      NewlinesConcat("\"", b);
      NewlinesConcat("\"", c);
    }
  }

  lemma FirstIllegalStep(lang: Language, t: Token, ts: seq<Token>, line: nat)
    ensures FirstIllegal(lang, [t] + ts, line) ==
            match FirstIllegalUnit(lang, t.Body())
            case Some(c) => Rejected(c, line)
            case None => FirstIllegal(lang, ts, line + Newlines(t.Text()))
  {
    hide FirstIllegalUnit, Newlines, Token.Text, Token.Body;
    assert ([t] + ts)[1..] == ts;
  }

  /** On one token the repair leaves the gate exactly what a char literal holds. */
  lemma OneTokenAfterRepair(lang: Language, t: Token)
    requires !t.LostSync() && SoundToken(t)
    ensures FirstIllegalUnit(lang, RepairToken(lang, t).Body()) == FirstIllegalUnit(lang, CharOnly(t).Body())
    ensures CharOnly(t).Text() == t.Text()
  {
    if Repairable(t) {
      RepairBodyLegal(lang, t.body);
    }
  }

  lemma {:induction false} FirstIllegalAfterRepair(lang: Language, ts: seq<Token>, line: nat)
    requires Complete(ts) && Sound(ts)
    ensures FirstIllegal(lang, RepairTokens(lang, ts), line) == FirstIllegal(lang, OnlyCharLiterals(ts), line)
  {
    hide FirstIllegalUnit, RepairToken, Newlines, CharOnly, TextOf, SoundToken, Token.Text, Token.Body;
    if ts != [] {
      var t := ts[0];
      assert SoundToken(t);
      RepairTokensCons(lang, ts);
      var r := RepairToken(lang, t);
      RepairTokenNewlines(lang, t);
      OneTokenAfterRepair(lang, t);
      FirstIllegalStep(lang, r, RepairTokens(lang, ts[1..]), line);
      FirstIllegalStep(lang, CharOnly(t), OnlyCharLiterals(ts[1..]), line);
      FirstIllegalAfterRepair(lang, ts[1..], line + Newlines(t.Text()));
    }
  }

  lemma {:induction false} LegalBody(lang: Language, us: seq<Unit>)
    ensures FirstIllegalUnit(lang, us).None? <==> AllLegal(lang, us)
    ensures us == [] ==> AllLegal(lang, us)
  {
    if us != [] {
      LegalBody(lang, us[1..]);
      assert AllLegal(lang, us) <==> !IllegalUnit(lang, us[0]) && AllLegal(lang, us[1..]) by {
        assert forall k :: 0 < k < |us| ==> us[k] == us[1..][k - 1];
      }
    }
  }

  lemma {:induction false} AcceptedIffCharsLegal(lang: Language, ts: seq<Token>, line: nat)
    requires Complete(ts)
    ensures FirstIllegal(lang, OnlyCharLiterals(ts), line).Accepted? <==> CharLiteralsLegal(lang, ts)
  {
    hide FirstIllegalUnit, Newlines, TextOf, AllLegal;
    if ts != [] {
      var t := ts[0];
      assert ts == [t] + ts[1..];
      assert CharOnly(t).Text() == t.Text();
      FirstIllegalStep(lang, CharOnly(t), OnlyCharLiterals(ts[1..]), line);
      LegalBody(lang, CharOnly(t).Body());
      assert CharLiteralsLegal(lang, ts) <==> (IsCharLiteral(t) ==> AllLegal(lang, t.body)) && CharLiteralsLegal(lang, ts[1..]) by {
        assert forall k :: 0 < k < |ts| ==> ts[k] == ts[1..][k - 1];
      }
      AcceptedIffCharsLegal(lang, ts[1..], line + Newlines(t.Text()));
    }
  }

  /** Once the repair reports a change, the gate's answer on the repaired file is its answer on the
      char literals alone: escape and line. */
  lemma GateOnRepairedFile(lang: Language, s: string)
    requires Repair(lang, s).1 != []
    ensures Gate(lang, Repair(lang, s).0) == FirstIllegal(lang, OnlyCharLiterals(Lex(lang, s)), 1)
  {
    LexAfterRepair(lang, s);
    FirstIllegalAfterRepair(lang, Lex(lang, s), 1);
  }

  /** So a repaired file is one the gate accepts exactly when its char literals were legal. */
  lemma RepairedFileAccepted(lang: Language, s: string)
    requires Repair(lang, s).1 != []
    ensures Gate(lang, Repair(lang, s).0).Accepted? <==> CharLiteralsLegal(lang, Lex(lang, s))
  {
    GateOnRepairedFile(lang, s);
    AcceptedIffCharsLegal(lang, Lex(lang, s), 1);
  }

  // ----- what was inserted

  function Unmasked(s: string, mask: seq<bool>): string
    requires |s| == |mask|
  {
    if s == "" then "" else (if mask[0] then "" else [s[0]]) + Unmasked(s[1..], mask[1..])
  }

  function Marks(mask: seq<bool>): nat {
    if mask == [] then 0 else (if mask[0] then 1 else 0) + Marks(mask[1..])
  }

  function NoMarks(n: nat): seq<bool> { seq(n, _ => false) }

  function BodyMask(lang: Language, us: seq<Unit>): seq<bool> {
    if us == [] then []
    else UnitMask(lang, us[0]) + BodyMask(lang, us[1..])
  }

  function TokenMask(lang: Language, t: Token): seq<bool> {
    if Repairable(t) then [false] + BodyMask(lang, t.body) + [false] else NoMarks(|t.Text()|)
  }

  /** Which bytes of the repaired file the repair put there. */
  function Inserted(lang: Language, ts: seq<Token>): seq<bool> {
    if ts == [] then [] else TokenMask(lang, ts[0]) + Inserted(lang, ts[1..])
  }

  /** `out` is `s` with the marked bytes added: every one a backslash, `n` in all. */
  predicate Explains(out: string, mask: seq<bool>, s: string, n: nat) {
    && |mask| == |out| && Unmasked(out, mask) == s && Marks(mask) == n
    && forall k :: 0 <= k < |out| && mask[k] ==> out[k] == '\\'
  }

  lemma {:induction false} ExplainsConcat(o1: string, m1: seq<bool>, s1: string, n1: nat, o2: string, m2: seq<bool>,
    s2: string, n2: nat)
    requires Explains(o1, m1, s1, n1) && Explains(o2, m2, s2, n2)
    ensures Explains(o1 + o2, m1 + m2, s1 + s2, n1 + n2)
  {
    if o1 == "" {
      assert o1 + o2 == o2 && m1 + m2 == m2 && s1 + s2 == s2;
    } else {
      assert (o1 + o2)[1..] == o1[1..] + o2 && (m1 + m2)[1..] == m1[1..] + m2;
      var head := if m1[0] then "" else [o1[0]];
      var rest := Unmasked(o1[1..], m1[1..]);
      assert s1 == head + rest;
      ExplainsConcat(o1[1..], m1[1..], rest, Marks(m1[1..]), o2, m2, s2, n2);
      assert (head + rest) + s2 == head + (rest + s2);
      forall k | 0 <= k < |o1 + o2| && (m1 + m2)[k] ensures (o1 + o2)[k] == '\\' {
        if k < |o1| {
          assert m1[k];
        } else {
          assert m2[k - |o1|];
        }
      }
    }
  }

  lemma {:induction false} NoMarksExplain(s: string)
    ensures Explains(s, NoMarks(|s|), s, 0)
  {
    if s != "" {
      NoMarksExplain(s[1..]);
      assert NoMarks(|s|)[1..] == NoMarks(|s| - 1);
      assert s == [s[0]] + s[1..];
    }
  }

  lemma NothingExplained()
    ensures Explains("", [], "", 0)
  {
  }

  function UnitMask(lang: Language, u: Unit): seq<bool> {
    if IllegalUnit(lang, u) then [true, false, false] else NoMarks(|UnitText(u)|)
  }

  lemma UnitExplained(lang: Language, u: Unit)
    ensures Explains(UnitsText(RepairUnit(lang, u)), UnitMask(lang, u), UnitText(u), if IllegalUnit(lang, u) then 1 else 0)
  {
    var r := RepairUnit(lang, u);
    if IllegalUnit(lang, u) {
      var o, c := ['\\', '\\', u.c], u.c;
      assert r[1..] == [Raw(c)] && r[1..][1..] == [];
      assert UnitsText(r) == ['\\', '\\'] + UnitsText(r[1..]) && UnitsText(r[1..]) == [c] + "";
      assert UnitsText(r) == o;
      assert o[1..] == ['\\', c];
      var m := [true, false, false];
      assert m[1..] == [false, false] == NoMarks(2);
      NoMarksExplain(o[1..]);
    } else {
      assert UnitsText(r) == UnitText(u);
      NoMarksExplain(UnitText(u));
    }
  }

  lemma {:induction false} BodyExplained(lang: Language, us: seq<Unit>, line: nat)
    ensures Explains(UnitsText(RepairBody(lang, us)), BodyMask(lang, us), UnitsText(us), |BodyRepairs(lang, us, line)|)
  {
    NothingExplained();
    hide Explains, UnitMask, UnitText, NoMarks;
    if us != [] {
      BodyExplained(lang, us[1..], line);
      var r, rest := RepairUnit(lang, us[0]), RepairBody(lang, us[1..]);
      UnitsTextConcat(r, rest);
      UnitExplained(lang, us[0]);
      ExplainsConcat(UnitsText(r), UnitMask(lang, us[0]), UnitText(us[0]), if IllegalUnit(lang, us[0]) then 1 else 0,
        UnitsText(rest), BodyMask(lang, us[1..]), UnitsText(us[1..]), |BodyRepairs(lang, us[1..], line)|);
    }
  }

  lemma TokenExplained(lang: Language, t: Token, line: nat)
    ensures Explains(RepairToken(lang, t).Text(), TokenMask(lang, t), t.Text(), |TokenRepairs(lang, t, line)|)
  {
    if Repairable(t) {
      BodyExplained(lang, t.body, line);
      var n := |BodyRepairs(lang, t.body, line)|;
      var b, c, m := UnitsText(t.body), UnitsText(RepairBody(lang, t.body)), BodyMask(lang, t.body);
      NoMarksExplain("\"");
      assert NoMarks(1) == [false];
      ExplainsConcat("\"", [false], "\"", 0, c, m, b, n);
      ExplainsConcat("\"" + c, [false] + m, "\"" + b, n, "\"", [false], "\"", 0);
    } else {
      NoMarksExplain(t.Text());
    }
  }

  lemma {:induction false} TokensExplained(lang: Language, ts: seq<Token>, line: nat)
    ensures Explains(TextOf(RepairTokens(lang, ts)), Inserted(lang, ts), TextOf(ts), |RepairsOf(lang, ts, line)|)
  {
    NothingExplained();
    hide Explains, TokenMask, RepairToken, TokenRepairs, Newlines;
    if ts != [] {
      var line' := line + Newlines(ts[0].Text());
      TokenExplained(lang, ts[0], line);
      TokensExplained(lang, ts[1..], line');
      RepairTokensCons(lang, ts);
      ExplainsConcat(RepairToken(lang, ts[0]).Text(), TokenMask(lang, ts[0]), ts[0].Text(), |TokenRepairs(lang, ts[0], line)|,
        TextOf(RepairTokens(lang, ts[1..])), Inserted(lang, ts[1..]), TextOf(ts[1..]), |RepairsOf(lang, ts[1..],
          line')|);
    }
  }

  lemma {:induction false} MarksLengthen(s: string, mask: seq<bool>)
    requires |s| == |mask|
    ensures |s| == |Unmasked(s, mask)| + Marks(mask)
  {
    if s != "" {
      MarksLengthen(s[1..], mask[1..]);
    }
  }

  /** The repair only inserts backslashes, one for each repair it reports; taking them out again
      gives the input. */
  lemma RepairIsExact(lang: Language, s: string)
    requires Repair(lang, s).1 != []
    ensures var (out, repairs) := Repair(lang, s);
            && Explains(out, Inserted(lang, Lex(lang, s)), s, |repairs|)
            && |out| == |s| + |repairs|
  {
    var ts := Lex(lang, s);
    TokensExplained(lang, ts, 1);
    MarksLengthen(Repair(lang, s).0, Inserted(lang, ts));
  }

  // ----- where it was inserted

  function BodyOffsets(lang: Language, us: seq<Unit>, at: nat): seq<nat> {
    if us == [] then []
    else (if IllegalUnit(lang, us[0]) then [at] else []) + BodyOffsets(lang, us[1..], at + |UnitText(us[0])|)
  }

  function TokenOffsets(lang: Language, t: Token, at: nat): seq<nat> {
    if Repairable(t) then BodyOffsets(lang, t.body, at + 1) else []
  }

  /** The offsets of the illegal escapes of double-quoted literals, in file order. */
  function RepairOffsets(lang: Language, ts: seq<Token>, at: nat): seq<nat> {
    if ts == [] then []
    else TokenOffsets(lang, ts[0], at) + RepairOffsets(lang, ts[1..], at + |ts[0].Text()|)
  }

  /** The reports match the offsets one for one: same escape, and the line the offset is on. */
  predicate Located(s: string, offsets: seq<nat>, repairs: seq<EscapeRepair>) {
    && |offsets| == |repairs|
    && forall k :: 0 <= k < |repairs| ==>
         && OccursAt(s, repairs[k].escape, offsets[k])
         && repairs[k].line == 1 + Newlines(s[..offsets[k]])
  }

  predicate Within(offsets: seq<nat>, from: nat, to: nat) {
    && (forall k :: 0 <= k < |offsets| ==> from <= offsets[k] < to)
    && (forall i, j :: 0 <= i < j < |offsets| ==> offsets[i] < offsets[j])
  }

  lemma WithinConcat(a: seq<nat>, b: seq<nat>, from: nat, mid: nat, to: nat)
    requires from <= mid <= to && Within(a, from, mid) && Within(b, mid, to)
    ensures Within(a + b, from, to)
  {
  }

  lemma LocatedConcat(s: string, o1: seq<nat>, r1: seq<EscapeRepair>, o2: seq<nat>, r2: seq<EscapeRepair>)
    requires Located(s, o1, r1) && Located(s, o2, r2)
    ensures Located(s, o1 + o2, r1 + r2)
  {
  }

  lemma RegroupAll(a: string, b: string, c: string, d: string, e: string)
    ensures a + (b + c + d) + e == (a + b) + c + (d + e)
  {
  }

  lemma Regroup(a: string, b: string, c: string, d: string)
    ensures a + (b + c) + d == (a + b) + c + d == a + b + (c + d)
  {
  }

  lemma {:induction false} WellFormedNoNewline(us: seq<Unit>, quote: char)
    requires WellFormed(us, quote)
    ensures Newlines(UnitsText(us)) == 0
  {
    if us != [] {
      assert WellFormedUnit(us[0], quote);
      assert UnitText(us[0])[1..] == if us[0].Raw? then "" else [us[0].c];
      NewlinesConcat(UnitText(us[0]), UnitsText(us[1..]));
      WellFormedNoNewline(us[1..], quote);
    }
  }

  lemma SiteLocated(c: char, pre: string, post: string, line: nat)
    requires line == 1 + Newlines(pre)
    ensures Located(pre + ['\\', c] + post, [|pre|], [EscapeRepair(line, ['\\', c])])
  {
    hide Newlines;
    var s := pre + ['\\', c] + post;
    assert s[..|pre|] == pre;
    assert s[|pre|..|pre| + 2] == ['\\', c];
  }

  function UnitOffsets(lang: Language, u: Unit, at: nat): seq<nat> {
    if IllegalUnit(lang, u) then [at] else []
  }

  function UnitRepairs(lang: Language, u: Unit, line: nat): seq<EscapeRepair> {
    if IllegalUnit(lang, u) then [EscapeRepair(line, ['\\', u.c])] else []
  }

  lemma {:induction false} BodyLocated(lang: Language, us: seq<Unit>, pre: string, post: string, line: nat)
    requires Newlines(UnitsText(us)) == 0 && line == 1 + Newlines(pre)
    ensures Located(pre + UnitsText(us) + post, BodyOffsets(lang, us, |pre|), BodyRepairs(lang, us, line))
  {
    hide Located, Newlines;
    NothingLocated(pre + UnitsText(us) + post);
    if us != [] {
      var u, x, rest := us[0], UnitText(us[0]), UnitsText(us[1..]);
      var o2, r2 := BodyOffsets(lang, us[1..], |pre + x|), BodyRepairs(lang, us[1..], line);
      assert UnitsText(us) == x + rest;
      assert |pre + x| == |pre| + |x|;
      NewlinesConcat(x, rest);
      NewlinesConcat(pre, x);
      BodyLocated(lang, us[1..], pre + x, post, line);
      Regroup(pre, x, rest, post);
      if IllegalUnit(lang, u) {
        assert x == ['\\', u.c];
        SiteLocated(u.c, pre, rest + post, line);
      } else {
        NothingLocated(pre + x + (rest + post));
      }
      LocatedConcat(pre + UnitsText(us) + post, UnitOffsets(lang, u, |pre|), UnitRepairs(lang, u, line), o2, r2);
    }
  }

  lemma NothingLocated(s: string)
    ensures Located(s, [], [])
  {
  }

  lemma LiteralLocated(lang: Language, us: seq<Unit>, pre: string, post: string, line: nat)
    requires WellFormed(us, '"') && line == 1 + Newlines(pre)
    ensures Located(pre + Literal('"', us).Text() + post, BodyOffsets(lang, us, |pre| + 1), BodyRepairs(lang, us, line))
  {
    assert Newlines("\"") == 0;
    hide Located, Newlines, UnitsText, BodyOffsets, BodyRepairs;
    WellFormedNoNewline(us, '"');
    NewlinesConcat(pre, "\"");
    BodyLocated(lang, us, pre + "\"", "\"" + post, line);
    RegroupAll(pre, "\"", UnitsText(us), "\"", post);
  }

  lemma {:induction false} TokensLocated(lang: Language, ts: seq<Token>, pre: string, line: nat)
    requires Sound(ts) && line == 1 + Newlines(pre)
    ensures Located(pre + TextOf(ts), RepairOffsets(lang, ts, |pre|), RepairsOf(lang, ts, line))
  {
    hide Newlines, Located, Token.Text, UnitsText, BodyOffsets, BodyRepairs, WellFormed;
    NothingLocated(pre + TextOf(ts));
    if ts != [] {
      var t, x, rest := ts[0], ts[0].Text(), TextOf(ts[1..]);
      var line' := line + Newlines(x);
      var o2, r2 := RepairOffsets(lang, ts[1..], |pre + x|), RepairsOf(lang, ts[1..], line');
      assert SoundToken(t);
      assert |pre + x| == |pre| + |x|;
      assert TextOf(ts) == x + rest;
      NewlinesConcat(pre, x);
      TokensLocated(lang, ts[1..], pre + x, line');
      assert pre + (x + rest) == pre + x + rest;
      if Repairable(t) {
        LiteralLocated(lang, t.body, pre, rest, line);
      } else {
        NothingLocated(pre + x + rest);
      }
      LocatedConcat(pre + TextOf(ts), TokenOffsets(lang, t, |pre|), TokenRepairs(lang, t, line), o2, r2);
    }
  }

  lemma NothingWithin(from: nat, to: nat)
    ensures Within([], from, to)
  {
  }

  lemma WithinWider(offsets: seq<nat>, from: nat, to: nat, from': nat, to': nat)
    requires Within(offsets, from, to) && from' <= from && to <= to'
    ensures Within(offsets, from', to')
  {
  }

  lemma UnitWithin(lang: Language, u: Unit, at: nat)
    ensures Within(UnitOffsets(lang, u, at), at, at + |UnitText(u)|)
  {
  }

  lemma {:induction false} BodyWithin(lang: Language, us: seq<Unit>, at: nat)
    ensures Within(BodyOffsets(lang, us, at), at, at + |UnitsText(us)|)
  {
    hide Within, UnitText;
    NothingWithin(at, at + |UnitsText(us)|);
    if us != [] {
      var at' := at + |UnitText(us[0])|;
      BodyWithin(lang, us[1..], at');
      UnitWithin(lang, us[0], at);
      WithinConcat(UnitOffsets(lang, us[0], at), BodyOffsets(lang, us[1..], at'), at, at', at + |UnitsText(us)|);
    }
  }

  lemma TokenWithin(lang: Language, t: Token, at: nat)
    ensures Within(TokenOffsets(lang, t, at), at, at + |t.Text()|)
  {
    hide Within, UnitsText, BodyOffsets;
    NothingWithin(at, at + |t.Text()|);
    if Repairable(t) {
      BodyWithin(lang, t.body, at + 1);
      WithinWider(BodyOffsets(lang, t.body, at + 1), at + 1, at + 1 + |UnitsText(t.body)|, at, at + |t.Text()|);
    }
  }

  lemma {:induction false} TokensWithin(lang: Language, ts: seq<Token>, at: nat)
    ensures Within(RepairOffsets(lang, ts, at), at, at + |TextOf(ts)|)
  {
    hide Within, Token.Text, TokenOffsets;
    NothingWithin(at, at + |TextOf(ts)|);
    if ts != [] {
      var at' := at + |ts[0].Text()|;
      TokenWithin(lang, ts[0], at);
      TokensWithin(lang, ts[1..], at');
      WithinConcat(TokenOffsets(lang, ts[0], at), RepairOffsets(lang, ts[1..], at'), at, at', at + |TextOf(ts)|);
    }
  }

  /** Each report names the escape at its own offset and the line that offset is on; the offsets
      rise, so no site is reported twice. */
  lemma RepairsAreLocated(lang: Language, s: string)
    requires Repair(lang, s).1 != []
    ensures var offsets := RepairOffsets(lang, Lex(lang, s), 0);
            Located(s, offsets, Repair(lang, s).1) && Within(offsets, 0, |s|)
  {
    hide Lex, RepairOffsets, RepairsOf, Located, Within, TextOf;
    TokensLocated(lang, Lex(lang, s), "", 1);
    TokensWithin(lang, Lex(lang, s), 0);
    assert "" + s == s;
  }

  // ----- what the literals mean

  datatype Denoted = Byte(c: char) | Escaped(c: char)

  /** What a literal denotes, an illegal `\x` read as the two bytes it is written with. */
  function Meaning(lang: Language, us: seq<Unit>): seq<Denoted> {
    if us == [] then []
    else UnitMeaning(lang, us[0]) + Meaning(lang, us[1..])
  }

  function UnitMeaning(lang: Language, u: Unit): seq<Denoted> {
    match u
    case Raw(c) => [Byte(c)]
    case Escape(c) => if c == '\\' then [Byte('\\')] else if IsEscapeLead(lang, c) then [Escaped(c)] else [Byte('\\'), Byte(c)]
  }

  lemma {:induction false} MeaningConcat(lang: Language, a: seq<Unit>, b: seq<Unit>)
    ensures Meaning(lang, a + b) == Meaning(lang, a) + Meaning(lang, b)
  {
    hide UnitMeaning;
    if a == [] {
      assert a + b == b;
    } else {
      assert (a + b)[1..] == a[1..] + b;
      MeaningConcat(lang, a[1..], b);
    }
  }

  lemma RepairUnitMeaning(lang: Language, u: Unit)
    ensures Meaning(lang, RepairUnit(lang, u)) == UnitMeaning(lang, u)
  {
    var r := RepairUnit(lang, u);
    if |r| == 2 {
      assert r[1..] == [Raw(u.c)] && r[1..][1..] == [];
      assert Meaning(lang, r[1..]) == [Byte(u.c)] + [];
    }
  }

  lemma {:induction false} RepairBodyMeaning(lang: Language, us: seq<Unit>)
    ensures Meaning(lang, RepairBody(lang, us)) == Meaning(lang, us)
  {
    hide UnitMeaning, RepairUnit;
    if us != [] {
      RepairUnitMeaning(lang, us[0]);
      RepairBodyMeaning(lang, us[1..]);
      MeaningConcat(lang, RepairUnit(lang, us[0]), RepairBody(lang, us[1..]));
    }
  }

  /** Same kind, same meaning; and the very same token unless it is a double-quoted literal. */
  predicate SameToken(lang: Language, t: Token, r: Token) {
    if Repairable(t) then Repairable(r) && Meaning(lang, r.body) == Meaning(lang, t.body) else r == t
  }

  /** The repaired file reads, token for token, as the original: nothing outside double-quoted
      literals moves, and each of those denotes what it denoted. */
  lemma RepairPreservesMeaning(lang: Language, s: string)
    requires Complete(Lex(lang, s))
    ensures var before, after := Lex(lang, s), Lex(lang, Repair(lang, s).0);
            && |after| == |before|
            && forall k :: 0 <= k < |before| ==> SameToken(lang, before[k], after[k])
  {
    if Repair(lang, s).1 != [] {
      LexAfterRepair(lang, s);
      var ts := Lex(lang, s);
      forall k | 0 <= k < |ts| ensures SameToken(lang, ts[k], RepairToken(lang, ts[k])) {
        if Repairable(ts[k]) {
          RepairBodyMeaning(lang, ts[k].body);
        }
      }
    }
  }

  // ----- running it again

  lemma {:induction false} LegalBodyNoRepairs(lang: Language, us: seq<Unit>, line: nat)
    ensures BodyRepairs(lang, us, line) == [] <==> FirstIllegalUnit(lang, us).None?
  {
    if us != [] {
      LegalBodyNoRepairs(lang, us[1..], line);
    }
  }

  lemma {:induction false} NoRepairsAfterRepair(lang: Language, ts: seq<Token>, line: nat)
    ensures RepairsOf(lang, RepairTokens(lang, ts), line) == []
  {
    if ts != [] {
      RepairTokensCons(lang, ts);
      var r := RepairToken(lang, ts[0]);
      if Repairable(r) {
        RepairBodyLegal(lang, ts[0].body);
        LegalBodyNoRepairs(lang, r.body, line);
      }
      NoRepairsAfterRepair(lang, ts[1..], line + Newlines(r.Text()));
    }
  }

  /** A second repair changes nothing and reports nothing. */
  lemma RepairIsIdempotent(lang: Language, s: string)
    ensures Repair(lang, Repair(lang, s).0) == (Repair(lang, s).0, [])
  {
    if Repair(lang, s).1 != [] {
      LexAfterRepair(lang, s);
      NoRepairsAfterRepair(lang, Lex(lang, s), 1);
    }
  }

  // ----- when the file is returned as it came

  /** A closed double-quoted literal, outside the literals that are copied, holds an illegal escape. */
  predicate HasIllegalString(lang: Language, ts: seq<Token>) {
    exists k :: 0 <= k < |ts| && Repairable(ts[k]) && !AllLegal(lang, ts[k].body)
  }

  lemma {:induction false} RepairsIff(lang: Language, ts: seq<Token>, line: nat)
    ensures RepairsOf(lang, ts, line) != [] <==> HasIllegalString(lang, ts)
  {
    hide Newlines, BodyRepairs, AllLegal, Token.Text;
    if ts != [] {
      RepairsIff(lang, ts[1..], line + Newlines(ts[0].Text()));
      if Repairable(ts[0]) {
        LegalBodyNoRepairs(lang, ts[0].body, line);
        LegalBody(lang, ts[0].body);
      }
      assert HasIllegalString(lang, ts) <==> (Repairable(ts[0]) && !AllLegal(lang, ts[0].body)) || HasIllegalString(lang, ts[1..]) by {
        assert forall k :: 0 < k < |ts| ==> ts[k] == ts[1..][k - 1];
      }
    }
  }

  /** A file is changed if and only if the scan keeps its place to the end and some double-quoted
      literal holds an illegal escape, whatever verbatim and raw literals there are besides. */
  lemma ChangedIff(lang: Language, s: string)
    ensures Repair(lang, s).0 != s <==> Complete(Lex(lang, s)) && HasIllegalString(lang, Lex(lang, s))
  {
    RepairsIff(lang, Lex(lang, s), 1);
    hide HasIllegalString, Lex, RepairsOf, RepairedText;
    if Repair(lang, s).1 != [] {
      RepairIsExact(lang, s);
    }
  }
}
