/** How a text becomes tokens: one search after another, and input that comes in pieces. */
module LzParse {
  import opened BitStrings
  import opened LzCodes
  import opened MatchFinder
  import opened TextCover

  /** How deep a level searches, how deep and up to which length it looks one byte ahead, and when it is content. */
  datatype Level = Level(maxSearch: nat, lazyDepth: nat, lazyLimit: nat, giveUp: nat)

  /** Levels from 6 on search like the ones from 2 on. */
  function LevelOf(level: nat): Level
  {
    match if level >= 6 then level - 4 else level
    case 2 => Level(15, 2, 15, 25)
    case 3 => Level(70, 10, 30, 50)
    case 5 => Level(10000, 5000, 200, 100)
    case _ => Level(600, 50, 40, 100)
  }

  /** Each level searches deeper than the one below it, starting at 15 candidates; rANS levels search like the others. */
  lemma LevelsDeepen(a: nat, b: nat)
    requires 2 <= a < b <= 5
    ensures var x, y := LevelOf(a), LevelOf(b);
            && 15 <= x.maxSearch < y.maxSearch && 2 <= x.lazyDepth < y.lazyDepth < y.maxSearch
            && 15 <= x.lazyLimit < y.lazyLimit <= MAX_LEN && 25 <= x.giveUp <= y.giveUp
    ensures LevelOf(a + 4) == LevelOf(a) && LevelOf(b + 4) == LevelOf(b)
  {
  }

  /** The text loaded, how far it has been turned into tokens, the positions entered into the chains, and the tokens. */
  datatype Parse = Parse(text: seq<byte>, pos: nat, entered: seq<nat>, toks: seq<Token>)

  datatype Found = Found(len: nat, dist: nat)

  /** A short match may be followed by a longer one at the next byte. */
  predicate LooksAhead(lv: Level, s: Parse, f: Found)
  {
    0 < f.len < lv.lazyLimit && s.pos + f.len < |s.text|
  }

  /** The matches found here and, where that is asked for, one byte later. */
  ghost predicate Finds(lv: Level, s: Parse, f: Found, g: Found)
    requires s.pos + MIN_MATCH <= |s.text|
  {
    && BestMatch(s.text, s.pos, Candidates(s.entered, s.text, s.pos), lv.maxSearch, lv.giveUp, f.len, f.dist)
    && if LooksAhead(lv, s, f) then
         s.pos + 1 + MIN_MATCH <= |s.text| &&
         BestMatch(s.text, s.pos + 1, Candidates(s.entered + [s.pos], s.text, s.pos + 1), lv.lazyDepth, lv.giveUp, g.len, g.dist)
       else g.len == 0
  }

  /** A literal where nothing is found; a literal and the later match where that is longer; otherwise the match. */
  function Picked(s: Parse, f: Found, g: Found): (toks: seq<Token>)
    requires s.pos < |s.text|
  {
    if f.len == 0 then [Literal(s.text[s.pos])]
    else if g.len > f.len then [Literal(s.text[s.pos]), Match(g.dist, g.len)]
    else [Match(f.dist, f.len)]
  }

  function Taken(f: Found, g: Found): nat
  {
    if f.len == 0 then 1 else if g.len > f.len then 1 + g.len else f.len
  }

  /** The positions passed are entered as far as three of their bytes are there. */
  function Enterable(text: seq<byte>, pos: nat): int { if pos + 2 <= |text| then pos else |text| - 2 }

  ghost function AfterTokens(s: Parse, f: Found, g: Found): Parse
    requires s.pos < |s.text|
  {
    var pos := s.pos + Taken(f, g);
    Parse(s.text, pos, s.entered + Positions(s.pos, Enterable(s.text, pos)), s.toks + Picked(s, f, g))
  }

  /** While three bytes are left the next tokens are picked; positions are 64-bit numbers. */
  ghost predicate Picks(lv: Level, s: Parse, t: Parse)
  {
    s.pos + MIN_MATCH <= |s.text| && exists f, g :: (s.pos < NO_POSITION ==> Finds(lv, s, f, g)) && t == AfterTokens(s, f, g)
  }

  /** When fewer are left the next piece of input is loaded. */
  ghost predicate Loads(s: Parse, t: Parse)
  {
    && |s.text| < s.pos + MIN_MATCH && |s.text| < |t.text| <= |s.text| + READ_SIZE && s.text <= t.text
    && t == s.(text := t.text)
  }

  ghost predicate Next(lv: Level, s: Parse, t: Parse) { Picks(lv, s, t) || Loads(s, t) }

  ghost predicate Run(lv: Level, run: seq<Parse>)
  {
    |run| > 0 && forall i :: 0 <= i < |run| - 1 ==> Next(lv, run[i], run[i + 1])
  }

  /** The master is entered but for its last two bytes. */
  function AtStart(master: seq<byte>): Parse { Parse(master, |master|, Positions(0, |master| - 2), []) }

  ghost predicate RunTo(lv: Level, master: seq<byte>, run: seq<Parse>, s: Parse)
  {
    Run(lv, run) && run[0] == AtStart(master) && run[|run| - 1] == s
  }

  ghost predicate Ends(lv: Level, master: seq<byte>, data: seq<byte>, toks: seq<Token>, run: seq<Parse>, s: Parse)
  {
    && RunTo(lv, master, run, s) && s.text == master + data && s.pos <= |s.text| < s.pos + MIN_MATCH
    && toks == s.toks + Literals(s.text[s.pos..])
  }

  /** The tokens that some division of the data into pieces leads to; the last bytes, too few for a match, are literals. */
  ghost predicate Parsed(lv: Level, master: seq<byte>, data: seq<byte>, toks: seq<Token>)
  {
    exists run, s :: Ends(lv, master, data, toks, run, s)
  }

  /** The positions entered one by one are those passed. */
  lemma Passed(s: Parse, f: Found, g: Found, entered: seq<nat>)
    requires s.pos + MIN_MATCH <= |s.text| && (f.len > 0 ==> f.len >= MIN_MATCH)
    requires f.len == 0 ==> entered == s.entered + [s.pos]
    requires var rest := Enterable(s.text, s.pos + Taken(f, g));
             && (0 < f.len && g.len <= f.len ==> entered == s.entered + [s.pos] + Positions(s.pos + 1, rest))
             && (0 < f.len < g.len ==> s.pos + 4 <= |s.text| && entered == s.entered + [s.pos] + [s.pos + 1] + Positions(s.pos + 2, rest))
    ensures entered == AfterTokens(s, f, g).entered
  {
    hide Positions;
    var rest := Enterable(s.text, s.pos + Taken(f, g));
    PositionsFirst(s.pos, rest);
    if f.len == 0 {
      NoPositions(s.pos + 1);
    } else if g.len > f.len {
      PositionsFirst(s.pos + 1, rest);
      assert [s.pos] + ([s.pos + 1] + Positions(s.pos + 2, rest)) == [s.pos] + [s.pos + 1] + Positions(s.pos + 2, rest);
    }
  }

  lemma HavePicked(lv: Level, s: Parse, f: Found, g: Found, t: Parse)
    requires s.pos + MIN_MATCH <= |s.text| && (f.len > 0 ==> f.len >= MIN_MATCH)
    requires s.pos < NO_POSITION ==> Finds(lv, s, f, g)
    requires t.text == s.text && t.pos == s.pos + Taken(f, g) && t.toks == s.toks + Picked(s, f, g)
    requires f.len == 0 ==> t.entered == s.entered + [s.pos]
    requires var rest := Enterable(s.text, t.pos);
             && (0 < f.len && g.len <= f.len ==> t.entered == s.entered + [s.pos] + Positions(s.pos + 1, rest))
             && (0 < f.len < g.len ==> s.pos + 4 <= |s.text| && t.entered == s.entered + [s.pos] + [s.pos + 1] + Positions(s.pos + 2, rest))
    ensures Picks(lv, s, t) && Next(lv, s, t)
  {
    hide Finds, Positions;
    Passed(s, f, g, t.entered);
    assert t == AfterTokens(s, f, g);
  }

  lemma RunOne(lv: Level, master: seq<byte>)
    ensures RunTo(lv, master, [AtStart(master)], AtStart(master))
  {
  }

  lemma RunMore(lv: Level, master: seq<byte>, run: seq<Parse>, s: Parse, t: Parse)
    requires RunTo(lv, master, run, s) && Next(lv, s, t)
    ensures RunTo(lv, master, run + [t], t)
  {
    hide Next;
    var more := run + [t];
    forall i | 0 <= i < |more| - 1 ensures Next(lv, more[i], more[i + 1]) {
      if i < |run| - 1 {
        assert more[i] == run[i] && more[i + 1] == run[i + 1];
      } else {
        assert more[i] == s && more[i + 1] == t;
      }
    }
  }

  lemma NoLiterals(text: seq<byte>, a: nat)
    requires a <= |text|
    ensures Literals(text[a..a]) == []
  {
  }

  lemma LiteralsMore(text: seq<byte>, a: nat, b: nat)
    requires a <= b < |text|
    ensures Literals(text[a..b + 1]) == Literals(text[a..b]) + [Literal(text[b])]
  {
    assert text[a..b + 1] == text[a..b] + [text[b]];
  }

  lemma OneFind(lv: Level, s: Parse, f: Found, g: Found, f': Found, g': Found)
    requires s.pos + MIN_MATCH <= |s.text| && Finds(lv, s, f, g) && Finds(lv, s, f', g')
    ensures AfterTokens(s, f, g) == AfterTokens(s, f', g')
  {
    hide BestMatch, Candidates, Positions;
    OneBest(s.text, s.pos, Candidates(s.entered, s.text, s.pos), lv.maxSearch, lv.giveUp, f.len, f.dist, f'.len, f'.dist);
    if LooksAhead(lv, s, f) {
      OneBest(s.text, s.pos + 1, Candidates(s.entered + [s.pos], s.text, s.pos + 1), lv.lazyDepth, lv.giveUp, g.len, g.dist, g'.len, g'.dist);
    }
  }

  /** Each state has one successor but for how much input comes in. */
  lemma OneNext(lv: Level, s: Parse, t: Parse, t': Parse)
    requires Next(lv, s, t) && Next(lv, s, t') && s.pos < NO_POSITION
    requires |s.text| < s.pos + MIN_MATCH ==> t.text == t'.text
    ensures t == t'
  {
    hide Finds, AfterTokens;
    if s.pos + MIN_MATCH <= |s.text| {
      var f, g :| Finds(lv, s, f, g) && t == AfterTokens(s, f, g);
      var f', g' :| Finds(lv, s, f', g') && t' == AfterTokens(s, f', g');
      OneFind(lv, s, f, g, f', g');
    }
  }
}
