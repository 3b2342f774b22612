/** Tokens that replay a text: how they grow with it, and what each of them says about it. */
module TextCover {
  import opened BitStrings
  import opened LzCodes
  import opened BlockTokens
  import opened MatchFinder

  /** Replaying all tokens so far on the master gives the text up to pos. */
  ghost predicate Covers(toks: seq<Token>, text: seq<byte>, base: nat, pos: nat)
  {
    base <= pos <= |text| && AppliesAll(toks, text[..base]) && ApplyAll(toks, text[..base]) == text[..pos]
  }

  lemma CoversToken(toks: seq<Token>, text: seq<byte>, base: nat, pos: nat, tok: Token, n: nat)
    requires Covers(toks, text, base, pos) && pos + n <= |text|
    requires Applies(tok, text[..pos]) && Apply(tok, text[..pos]) == text[..pos + n]
    ensures Covers(toks + [tok], text, base, pos + n)
  {
    hide Applies, Apply;
    OneToken(tok, text[..pos]);
    ApplyConcat(toks, [tok], text[..base]);
  }

  lemma OneToken(tok: Token, h: seq<byte>)
    requires Applies(tok, h)
    ensures AppliesAll([tok], h) && ApplyAll([tok], h) == Apply(tok, h)
  {
    hide Applies, Apply;
    assert [tok][1..] == [];
  }

  lemma CoversLiteral(toks: seq<Token>, text: seq<byte>, base: nat, pos: nat)
    requires Covers(toks, text, base, pos) && pos < |text|
    ensures Covers(toks + [Literal(text[pos])], text, base, pos + 1)
  {
    hide Covers;
    CoversBounds(toks, text, base, pos);
    assert text[..pos] + [text[pos]] == text[..pos + 1];
    CoversToken(toks, text, base, pos, Literal(text[pos]), 1);
  }

  lemma CoversBounds(toks: seq<Token>, text: seq<byte>, base: nat, pos: nat)
    requires Covers(toks, text, base, pos)
    ensures base <= pos <= |text|
  {
  }

  lemma CoversMatch(toks: seq<Token>, text: seq<byte>, base: nat, pos: nat, dist: nat, len: nat)
    requires Covers(toks, text, base, pos) && Repeats(text, pos, dist, len) && dist <= MAX_DIST
    ensures Covers(toks + [Match(dist, len)], text, base, pos + len)
  {
    hide Covers;
    CopyReproduces(text, pos, dist, len);
    CoversToken(toks, text, base, pos, Match(dist, len), len);
  }

  lemma CoversMore(toks: seq<Token>, text: seq<byte>, piece: seq<byte>, base: nat, pos: nat)
    requires Covers(toks, text, base, pos)
    ensures Covers(toks, text + piece, base, pos)
  {
    assert (text + piece)[..base] == text[..base];
    assert (text + piece)[..pos] == text[..pos];
  }

  lemma CoversNothing(text: seq<byte>)
    ensures Covers([], text, |text|, |text|)
  {
    assert text[..|text|] == text;
  }

  // ----- what one token says -----

  /** The number of bytes a token stands for. */
  function Width(tok: Token): nat
  {
    if tok.Match? then tok.len else 1
  }

  /** A token that replays text at p is the byte there or repeats earlier text. */
  lemma TokenSays(tok: Token, text: seq<byte>, p: nat, pos: nat)
    requires p <= pos <= |text| && TokenOk(tok) && Applies(tok, text[..p]) && Apply(tok, text[..p]) <= text[..pos]
    ensures p + Width(tok) <= pos && Apply(tok, text[..p]) == text[..p + Width(tok)]
    ensures tok.Literal? ==> tok.b == text[p]
    ensures tok.Match? ==> Repeats(text, p, tok.dist, tok.len)
  {
    var h := Apply(tok, text[..p]);
    assert h == text[..pos][..|h|] == text[..|h|];
    if tok.Literal? {
      assert h[p] == tok.b;
    } else {
      assert |text[..p]| == p && h == Copy(text[..p], tok.dist, tok.len);
      forall k: nat | p <= k < p + tok.len ensures text[k] == text[k - tok.dist] {
        CopyRepeats(text[..p], tok.dist, tok.len, k);
        assert text[..|h|][k] == text[k] && text[..|h|][k - tok.dist] == text[k - tok.dist];
      }
    }
  }

  /** Every copied byte is the one dist before it. */
  lemma {:induction false} CopyRepeats(hist: seq<byte>, dist: nat, len: nat, k: nat)
    requires 1 <= dist <= |hist| <= k < |hist| + len
    ensures Copy(hist, dist, len)[k] == Copy(hist, dist, len)[k - dist]
    decreases len
  {
    var next := hist + [hist[|hist| - dist]];
    if k > |hist| {
      CopyRepeats(next, dist, len - 1, k);
    } else {
      assert next <= Copy(next, dist, len - 1);
      assert next[|hist|] == next[|hist| - dist];
    }
  }

  lemma FirstCovers(toks: seq<Token>, text: seq<byte>, p: nat, pos: nat)
    requires Covers(toks, text, p, pos) && toks != [] && TokensOk(toks)
    ensures p + Width(toks[0]) <= pos && Covers(toks[1..], text, p + Width(toks[0]), pos)
    ensures toks[0].Literal? ==> toks[0].b == text[p]
    ensures toks[0].Match? ==> Repeats(text, p, toks[0].dist, toks[0].len)
  {
    hide Repeats;
    FirstApplies(toks, text[..p]);
    hide TokenOk, Applies, Apply, AppliesAll, ApplyAll;
    TokenSays(toks[0], text, p, pos);
  }

  lemma FirstApplies(toks: seq<Token>, h: seq<byte>)
    requires toks != [] && TokensOk(toks) && AppliesAll(toks, h)
    ensures TokenOk(toks[0]) && Applies(toks[0], h) && AppliesAll(toks[1..], Apply(toks[0], h))
    ensures ApplyAll(toks, h) == ApplyAll(toks[1..], Apply(toks[0], h)) && Apply(toks[0], h) <= ApplyAll(toks, h)
  {
    hide TokenOk, Applies, Apply;
  }

  /** Buffer entries are no more than the bytes they stand for, and so are symbols. */
  lemma {:induction false} NoMoreEntries(toks: seq<Token>, text: seq<byte>, p: nat, pos: nat)
    requires Covers(toks, text, p, pos) && TokensOk(toks)
    ensures |AllEntries(toks)| <= pos - p && |BlockSyms(toks)| <= pos - p + 2
    decreases |toks|
  {
    hide Covers, Repeats, DistEntries, EndSyms;
    if toks == [] {
      SameEnds(toks, text, p, pos);
    } else {
      FirstCovers(toks, text, p, pos);
      NoMoreEntries(toks[1..], text, p + Width(toks[0]), pos);
    }
  }

  lemma SameEnds(toks: seq<Token>, text: seq<byte>, p: nat, pos: nat)
    requires Covers(toks, text, p, pos)
    ensures p <= pos && (toks == [] ==> p == pos)
  {
    if toks == [] {
      assert |text[..p]| == p;
    }
  }

  /** The bytes of literal tokens are bytes of the text they replay. */
  lemma {:induction false} LiteralsInText(toks: seq<Token>, text: seq<byte>, p: nat, pos: nat, b: byte)
    requires Covers(toks, text, p, pos) && TokensOk(toks) && Literal(b) in toks
    ensures p <= pos <= |text| && b in text[p..pos]
    decreases |toks|
  {
    hide Repeats, Covers;
    CoversBounds(toks, text, p, pos);
    FirstCovers(toks, text, p, pos);
    var q := p + Width(toks[0]);
    if toks[0] == Literal(b) {
      assert text[p..pos][0] == b;
    } else {
      assert toks == [toks[0]] + toks[1..];
      LiteralsInText(toks[1..], text, q, pos, b);
      InRest(text, p, q, pos, b);
    }
  }

  lemma InRest(text: seq<byte>, p: nat, q: nat, pos: nat, b: byte)
    requires p <= q <= pos <= |text| && b in text[q..pos]
    ensures b in text[p..pos]
  {
    var k :| 0 <= k < pos - q && text[q..pos][k] == b;
    assert text[p..pos][q - p + k] == b;
  }

  // ----- texts without repeats -----

  function Three(text: seq<byte>, i: nat): (byte, byte, byte)
    requires i + 2 < |text|
  {
    (text[i], text[i + 1], text[i + 2])
  }

  /** No three bytes occur twice. */
  ghost predicate NoRepeats(text: seq<byte>)
  {
    forall i: nat, j: nat :: i < j && j + 2 < |text| ==> Three(text, i) != Three(text, j)
  }

  function Literals(s: seq<byte>): (toks: seq<Token>)
    ensures |toks| == |s| && TokensOk(toks)
  {
    seq(|s|, i requires 0 <= i < |s| => Literal(s[i]))
  }

  lemma MatchNeedsRepeat(text: seq<byte>, p: nat, dist: nat, len: nat)
    requires Repeats(text, p, dist, len) && len >= 3
    ensures !NoRepeats(text)
  {
    assert text[p] == text[p - dist] && text[p + 1] == text[p + 1 - dist] && text[p + 2] == text[p + 2 - dist];
    assert Three(text, p - dist) == Three(text, p);
  }

  lemma LiteralsFrom(text: seq<byte>, p: nat, pos: nat)
    requires p < pos <= |text|
    ensures Literals(text[p..pos]) == [Literal(text[p])] + Literals(text[p + 1..pos])
  {
  }

  /** Where nothing repeats every token is a literal. */
  lemma {:induction false} OnlyLiterals(toks: seq<Token>, text: seq<byte>, p: nat, pos: nat)
    requires Covers(toks, text, p, pos) && TokensOk(toks) && NoRepeats(text)
    ensures p <= pos <= |text| && toks == Literals(text[p..pos])
    decreases |toks|
  {
    hide NoRepeats, Repeats, Covers;
    CoversBounds(toks, text, p, pos);
    if toks == [] {
      SameEnds(toks, text, p, pos);
    } else {
      FirstCovers(toks, text, p, pos);
      if toks[0].Match? {
        MatchNeedsRepeat(text, p, toks[0].dist, toks[0].len);
      }
      OnlyLiterals(toks[1..], text, p + 1, pos);
      LiteralsFrom(text, p, pos);
      assert toks == [toks[0]] + toks[1..];
    }
  }
}
