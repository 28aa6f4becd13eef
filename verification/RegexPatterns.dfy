/** What patterns match in terms of characters: words, the escapes that name a class, and a word with anything but
    white space behind it. */
module RegexPatterns {
  import opened Ctype
  import opened Memory
  import opened RegexMeaning
  import opened Regex
  import opened RegexCompiler

  /** The pieces of a word: its characters, each once. */
  function WordPieces(w: string): (pieces: seq<Piece>)
    ensures ValidPieces(pieces) && |pieces| == |w|
    ensures forall i :: 0 <= i < |w| ==> pieces[i] == Piece(Char(w[i]), Once)
  {
    seq(|w|, i requires 0 <= i < |w| => Piece(Char(w[i]), Once))
  }

  /** A word and the rest of a pattern accept a text that begins with the word, if the rest accepts what follows. */
  lemma {:induction false} WordThen(w: string, rest: seq<Piece>, atEnd: bool, t: string)
    requires ValidPieces(rest)
    ensures ValidPieces(WordPieces(w) + rest)
    ensures Accepts(WordPieces(w) + rest, atEnd, t) <==> w <= t && Accepts(rest, atEnd, t[|w|..])
    decreases |w|
  {
    if w == "" {
      assert WordPieces(w) + rest == rest && t[0..] == t;
    } else {
      var pieces := WordPieces(w) + rest;
      assert pieces[1..] == WordPieces(w[1..]) + rest;
      AcceptsOnce(pieces, atEnd, t);
      if t != "" && t[0] == w[0] {
        WordThen(w[1..], rest, atEnd, t[1..]);
        assert |w| <= |t| ==> t[1..][|w| - 1..] == t[|w|..];
        assert w == [w[0]] + w[1..] && t == [t[0]] + t[1..];
      }
    }
  }

  /** A word alone accepts the texts that begin with it, and anchored at the end only the word itself. */
  lemma WordAlone(w: string, t: string)
    ensures Accepts(WordPieces(w), false, t) <==> w <= t
    ensures Accepts(WordPieces(w), true, t) <==> w == t
  {
    assert WordPieces(w) + [] == WordPieces(w);
    WordThen(w, [], false, t);
    WordThen(w, [], true, t);
    if w <= t {
      AcceptsNothing(false, t[|w|..]);
      AcceptsNothing(true, t[|w|..]);
    }
  }

  /** `c` is one of the characters that `p` stands for, in character codes. */
  ghost predicate Stands(p: Symbol, c: char)
  {
    var code := c as int;
    match p
    case Dot => code != 10 && code != 13
    case Char(ch) => c == ch
    case Digit => 48 <= code <= 57
    case NotDigit => code < 48 || 57 < code
    case Alpha => 48 <= code <= 57 || 65 <= code <= 90 || code == 95 || 97 <= code <= 122
    case NotAlpha => code < 48 || 57 < code < 65 || 90 < code < 95 || code == 96 || 122 < code
    case Whitespace => 9 <= code <= 13 || code == 32
    case NotWhitespace => code < 9 || 13 < code < 32 || 32 < code
    case _ => false
  }

  predicate IsSimple(p: Symbol)
  {
    p.Dot? || p.Char? || p.Digit? || p.NotDigit? || p.Alpha? || p.NotAlpha? || p.Whitespace? || p.NotWhitespace?
  }

  /** The escapes mean the same inside a class. */
  lemma EscapesInClasses(c: char)
    ensures Escape('d').Has(c) <==> Stands(Digit, c)
    ensures Escape('D').Has(c) <==> Stands(NotDigit, c)
    ensures Escape('w').Has(c) <==> Stands(Alpha, c)
    ensures Escape('W').Has(c) <==> Stands(NotAlpha, c)
    ensures Escape('s').Has(c) <==> Stands(Whitespace, c)
    ensures Escape('S').Has(c) <==> Stands(NotWhitespace, c)
    ensures forall m :: m !in "dDwWsS" ==> (Escape(m).Has(c) <==> c == m)
  {
  }

  lemma MeansStands(p: Symbol, c: char)
    requires IsSimple(p)
    ensures MatchOne(p, c) <==> Stands(p, c)
  {
  }

  /** A pattern of one piece accepts the texts that begin with a word it fits, and anchored at the end those words. */
  lemma OnePiece(p: Piece, t: string)
    requires p.Valid()
    ensures Accepts([p], false, t) <==> exists k {:trigger t[..k]} :: 0 <= k <= |t| && p.Fits(t[..k])
    ensures Accepts([p], true, t) <==> p.Fits(t)
  {
    assert [p][1..] == [];
    AcceptsFirst([p], false, t);
    AcceptsFirst([p], true, t);
    forall k | 0 <= k <= |t|
      ensures Accepts([], false, t[k..]) && (Accepts([], true, t[k..]) <==> k == |t|)
    {
      AcceptsNothing(false, t[k..]);
      AcceptsNothing(true, t[k..]);
    }
    assert t[..|t|] == t;
  }

  /** A pattern of one symbol accepts the texts that begin with a character it stands for.  Anchored at the end and
      with a mark it accepts texts of such characters: any number, at least one, at most one. */
  lemma OneSymbol(p: Symbol, t: string)
    requires IsSimple(p)
    ensures Accepts([Piece(p, Once)], false, t) <==> t != "" && Stands(p, t[0])
    ensures Accepts([Piece(p, AnyNumber)], false, t)
    ensures Accepts([Piece(p, AnyNumber)], true, t) <==> AllStand(p, t)
    ensures Accepts([Piece(p, AtLeastOnce)], true, t) <==> 1 <= |t| && AllStand(p, t)
    ensures Accepts([Piece(p, AtMostOnce)], true, t) <==> |t| <= 1 && AllStand(p, t)
  {
    hide Accepts, Stands, MatchOne;
    OnePiece(Piece(p, Once), t);
    OnePiece(Piece(p, AnyNumber), t);
    OnePiece(Piece(p, AtLeastOnce), t);
    OnePiece(Piece(p, AtMostOnce), t);
    forall i | 0 <= i < |t| ensures MatchOne(p, t[i]) <==> Stands(p, t[i]) {
      MeansStands(p, t[i]);
    }
    assert t[..0] == "" && Piece(p, AnyNumber).Fits(t[..0]);
    if t != "" {
      assert t[..1] == [t[0]];
    }
  }

  ghost predicate AllStand(p: Symbol, t: string)
  {
    forall i :: 0 <= i < |t| ==> Stands(p, t[i])
  }

  /** A class of one range stands for the characters from one end to the other, its inverse for all others, one of
      single characters for these, and one of an escape for what that stands for. */
  lemma RangeClass(lo: char, hi: char, listed: string, c: char)
    requires lo <= hi && c != '-' && IsListable(lo) && IsListable(hi)
    requires forall i :: 0 <= i < |listed| ==> IsListable(listed[i])
    ensures MatchOne(CharClass(Listed(false, [Range(lo, hi)], false)), c) <==> lo as int <= c as int <= hi as int
    ensures MatchOne(InvCharClass(Listed(false, [Range(lo, hi)], false)), c) <==> c < lo || hi < c
    ensures MatchOne(CharClass(Listed(false, Singles(listed), false)), c) <==> c in listed
    ensures MatchOne(CharClass(Listed(false, [Escape('w')], false)), c) <==> Stands(Alpha, c)
  {
    var items, escapes := [Range(lo, hi)], [Escape('w')];
    assert escapes[0].Has(c) <==> Stands(Alpha, c);
    assert AnyHas(escapes, c) <==> escapes[0].Has(c);
    assert items[0].Has(c) <==> lo as int <= c as int <= hi as int;
    assert AnyHas(items, c) <==> items[0].Has(c);
    if c in listed {
      var k :| 0 <= k < |listed| && listed[k] == c;
      assert Singles(listed)[k].Has(c);
    }
  }

  /** A character that stands for itself in a class. */
  predicate IsListable(c: char)
  {
    c != '-' && c != '\\' && c != '\0'
  }

  ghost function Singles(s: string): (items: seq<ClassItem>)
    requires forall i :: 0 <= i < |s| ==> IsListable(s[i])
    ensures |items| == |s| && forall i :: 0 <= i < |s| ==> items[i] == Single(s[i]) && items[i].Plain()
  {
    var items := seq(|s|, i requires 0 <= i < |s| => Single(s[i]));
    assert forall i :: 0 <= i < |s| ==> IsListable(s[i]) && items[i].ch == s[i];
    items
  }

  // ---------------------------------------------------------------- looking for a word

  /** The word stands in the text at `i`. */
  ghost predicate Occurs(w: string, text: string, i: int)
  {
    0 <= i <= |text| && w <= text[i..]
  }

  /** The first place of the word, or -1. */
  ghost predicate IsFirstPlace(at: int, w: string, text: string)
  {
    && -1 <= at && (0 <= at ==> Occurs(w, text, at))
    && forall j :: 0 <= j < (if at == -1 then |text| else at) ==> !Occurs(w, text, j)
  }

  /** No character of the text has a meaning of its own in a pattern. */
  predicate IsLiteral(s: string)
  {
    forall i :: 0 <= i < |s| ==> s[i] !in "^$.*+?\\["
  }

  lemma WordFirst(w: string, rest: seq<Piece>)
    requires w != ""
    ensures WordPieces(w) + rest == [Piece(Char(w[0]), Once)] + (WordPieces(w[1..]) + rest)
  {
  }

  lemma NoWord(rest: seq<Piece>)
    ensures WordPieces("") == [] && WordPieces("") + rest == rest
  {
  }

  lemma TextOfOne(c: char, rest: seq<Piece>)
    requires ValidPieces(rest) && c !in "^$.*+?\\["
    ensures ValidPieces([Piece(Char(c), Once)] + rest)
    ensures PiecesText([Piece(Char(c), Once)] + rest, false) == [c] + PiecesText(rest, false)
  {
    var pieces := [Piece(Char(c), Once)] + rest;
    assert pieces[1..] == rest;
    assert AtomText(Char(c)) + MarkText(Once) == [c];
  }

  lemma KeptOne(c: char, rest: seq<Piece>, room: nat)
    ensures Kept([Piece(Char(c), Once)] + rest, room)
            == if room == 0 then [] else [Piece(Char(c), Once)] + Kept(rest, room - 1)
    ensures AllClassBytes([Piece(Char(c), Once)] + rest) == AllClassBytes(rest)
  {
    assert ([Piece(Char(c), Once)] + rest)[1..] == rest;
  }

  lemma {:induction false} WordText(w: string, rest: seq<Piece>)
    requires ValidPieces(rest) && IsLiteral(w)
    ensures ValidPieces(WordPieces(w) + rest)
    ensures PiecesText(WordPieces(w) + rest, false) == w + PiecesText(rest, false)
    decreases |w|
  {
    hide PiecesText, WordPieces;
    if w == "" {
      NoWord(rest);
    } else {
      WordFirst(w, rest);
      WordText(w[1..], rest);
      TextOfOne(w[0], WordPieces(w[1..]) + rest);
      assert [w[0]] + (w[1..] + PiecesText(rest, false)) == w + PiecesText(rest, false);
    }
  }

  /** What is kept of a word and the rest of a pattern. */
  lemma {:induction false} WordKept(w: string, rest: seq<Piece>, room: nat)
    ensures Kept(WordPieces(w) + rest, room)
            == if |w| <= room then WordPieces(w) + Kept(rest, room - |w|) else WordPieces(w[..room])
    decreases |w|
  {
    hide Kept, WordPieces;
    if w == "" {
      NoWord(rest);
      NoWord(Kept(rest, room));
    } else {
      WordFirst(w, rest);
      KeptOne(w[0], WordPieces(w[1..]) + rest, room);
      if room == 0 {
        NoWord([]);
        assert w[..0] == "";
      } else {
        WordKept(w[1..], rest, room - 1);
        if |w| <= room {
          WordFirst(w, Kept(rest, room - |w|));
        } else {
          var front := w[..room];
          WordFirst(front, []);
          assert front[1..] == w[1..][..room - 1];
          assert WordPieces(front) + [] == WordPieces(front);
          assert WordPieces(front[1..]) + [] == WordPieces(front[1..]);
        }
      }
    }
  }

  lemma {:induction false} WordBytes(w: string, rest: seq<Piece>)
    ensures AllClassBytes(WordPieces(w) + rest) == AllClassBytes(rest)
    decreases |w|
  {
    hide WordPieces;
    if w == "" {
      NoWord(rest);
    } else {
      WordFirst(w, rest);
      KeptOne(w[0], WordPieces(w[1..]) + rest, 0);
      WordBytes(w[1..], rest);
    }
  }

  /** A search for a word that fits finds its first place. */
  lemma WordFound(at: int, w: string, text: string)
    requires w != "" && IsFirstMatch(at, false, WordPieces(w), false, text)
    ensures IsFirstPlace(at, w, text)
  {
    forall j | 0 <= j <= |text| ensures Accepts(WordPieces(w), false, text[j..]) <==> Occurs(w, text, j) {
      WordAlone(w, text[j..]);
    }
  }

  /** A search for one symbol finds the first character that it stands for. */
  lemma OneSymbolFound(at: int, p: Symbol, text: string)
    requires IsSimple(p) && IsFirstMatch(at, false, [Piece(p, Once)], false, text)
    ensures -1 <= at < |text|
    ensures 0 <= at ==> Stands(p, text[at])
    ensures forall j :: 0 <= j < (if at == -1 then |text| else at) ==> !Stands(p, text[j])
  {
    hide Stands;
    forall j | 0 <= j < |text| ensures Accepts([Piece(p, Once)], false, text[j..]) <==> Stands(p, text[j]) {
      OneSymbol(p, text[j..]);
    }
  }

  /** `re_match` for a word of at most 29 characters: its first place.  Of a longer word only 29 count. */
  method FindWord(w: string, text: string, compiled: array<Symbol>) returns (at: int)
    requires w != "" && IsLiteral(w) && '\0' !in w && IsCString(text) && compiled.Length == MaxSymbols
    modifies compiled
    ensures IsFirstPlace(at, if |w| <= 29 then w else w[..29], text)
  {
    hide IsFirstMatch, IsFirstPlace, Accepts, AllWritable;
    ghost var pieces := WordPieces(w) + [];
    assert pieces == WordPieces(w);
    WordText(w, []);
    assert w + "" == w;
    WordKept(w, [], 29);
    ghost var front := if |w| <= 29 then w else w[..29];
    assert Kept(pieces, 29) == WordPieces(front) + [];
    WordBytes(front, []);
    WordWritable(w, []);
    var matchLength;
    at, matchLength := ReMatch(w, text, compiled, false, pieces, false);
    WordFound(at, front, text);
  }

  lemma WordWritable(w: string, rest: seq<Piece>)
    requires AllWritable(rest)
    ensures AllWritable(WordPieces(w) + rest)
    ensures PatternText(false, WordPieces(w) + rest, false) == PiecesText(WordPieces(w) + rest, false)
  {
  }

  // ---------------------------------------------------------------- settings on the command line

  /** A run of characters that are no white space, as long as it can be. */
  ghost predicate IsValueAt(line: string, from: int, value: string)
  {
    && 0 <= from && from + |value| <= |line| && line[from..from + |value|] == value
    && (forall i :: 0 <= i < |value| ==> Stands(NotWhitespace, value[i]))
    && (from + |value| < |line| ==> Stands(Whitespace, line[from + |value|]))
  }

  ghost function SettingPieces(w: string): seq<Piece>
  {
    WordPieces(w) + [Piece(NotWhitespace, AnyNumber)]
  }

  lemma {:induction false} WordTakesRun(w: string, p: Symbol, t: string, n: int)
    requires p.IsAtom() && ValidPieces(WordPieces(w) + [Piece(p, AnyNumber)])
    requires TakesRun(WordPieces(w) + [Piece(p, AnyNumber)], t, n)
    ensures w <= t && |w| <= n && IsRun(p, t[|w|..], n - |w|)
    decreases |w|
  {
    hide WordPieces, IsRun;
    if w == "" {
      NoWord([Piece(p, AnyNumber)]);
      assert t[0..] == t;
    } else {
      var rest := WordPieces(w[1..]) + [Piece(p, AnyNumber)];
      WordFirst(w, [Piece(p, AnyNumber)]);
      assert ([Piece(Char(w[0]), Once)] + rest)[1..] == rest;
      WordTakesRun(w[1..], p, t[1..], n - 1);
      assert t == [t[0]] + t[1..] && w == [w[0]] + w[1..];
      assert t[1..][|w| - 1..] == t[|w|..];
    }
  }

  lemma RunIsValue(line: string, at: nat, w: string, n: int)
    requires at <= |line| && w <= line[at..] && |w| <= n && IsRun(NotWhitespace, line[at..][|w|..], n - |w|)
    ensures at + n <= |line| && IsValueAt(line, at + |w|, line[at + |w|..at + n])
  {
    var rest, value := line[at..][|w|..], line[at + |w|..at + n];
    assert rest == line[at + |w|..];
    forall i | 0 <= i < |value| ensures Stands(NotWhitespace, value[i]) {
      assert value[i] == rest[i];
    }
    assert at + n < |line| ==> line[at + n] == rest[n - |w|];
  }

  /** What the search for a setting has to find: the whole of its name and the equals sign; when that has 28
      characters, a character of the value, too; and when it has more, its first 29. */
  ghost predicate IsSettingAt(w: string, line: string, at: int)
  {
    if |w| <= 27 then Occurs(w, line, at)
    else if |w| == 28 then Occurs(w, line, at) && at + 28 < |line| && Stands(NotWhitespace, line[at + 28])
    else Occurs(w[..29], line, at)
  }

  ghost predicate IsFirstSetting(at: int, w: string, line: string)
  {
    && -1 <= at && (0 <= at ==> IsSettingAt(w, line, at))
    && forall j :: 0 <= j < (if at == -1 then |line| else at) ==> !IsSettingAt(w, line, j)
  }

  /** The pieces that are kept of a setting. */
  lemma SettingKept(w: string)
    ensures Kept(SettingPieces(w), 29)
            == if |w| <= 27 then SettingPieces(w)
               else if |w| == 28 then WordPieces(w) + [Piece(NotWhitespace, Once)]
               else WordPieces(w[..29])
    ensures AllClassBytes(Kept(SettingPieces(w), 29)) == 0
  {
    var run := [Piece(NotWhitespace, AnyNumber)];
    WordKept(w, run, 29);
    assert run[1..] == [] && Kept([], 0) == [];
    assert Kept(run, 1) == [Piece(NotWhitespace, Once)] && Kept(run, 0) == [];
    if |w| <= 27 {
      assert Kept(run, 29 - |w|) == run + [] == run;
      WordBytes(w, run);
    } else if |w| == 28 {
      WordBytes(w, [Piece(NotWhitespace, Once)]);
    } else {
      var front := w[..29];
      assert WordPieces(front) + [] == WordPieces(front);
      WordBytes(front, []);
      if |w| == 29 {
        assert w[..29] == w && WordPieces(w) + [] == WordPieces(w);
      }
    }
  }

  lemma SettingFound(at: int, w: string, line: string)
    requires w != "" && ValidPieces(Kept(SettingPieces(w), 29))
    requires IsFirstMatch(at, false, Kept(SettingPieces(w), 29), false, line)
    ensures IsFirstSetting(at, w, line) && (0 <= at ==> at < |line|)
  {
    hide Accepts, Kept, WordPieces;
    SettingKept(w);
    forall j | 0 <= j <= |line|
      ensures Accepts(Kept(SettingPieces(w), 29), false, line[j..]) <==> IsSettingAt(w, line, j)
    {
      if |w| <= 27 {
        WordThen(w, [Piece(NotWhitespace, AnyNumber)], false, line[j..]);
        if w <= line[j..] {
          OneSymbol(NotWhitespace, line[j..][|w|..]);
        }
      } else if |w| == 28 {
        WordThen(w, [Piece(NotWhitespace, Once)], false, line[j..]);
        if w <= line[j..] {
          OneSymbol(NotWhitespace, line[j..][|w|..]);
        }
      } else {
        WordAlone(w[..29], line[j..]);
      }
    }
  }

  lemma ShortSetting(at: int, w: string, line: string)
    requires IsFirstSetting(at, w, line)
    ensures |w| <= 27 ==> IsFirstPlace(at, w, line)
  {
    assert |w| <= 27 ==> forall j :: IsSettingAt(w, line, j) <==> Occurs(w, line, j);
  }

  lemma SettingText(w: string)
    requires IsLiteral(w)
    ensures AllWritable(SettingPieces(w)) && PatternText(false, SettingPieces(w), false) == w + "\\S*"
    ensures !EndKept(SettingPieces(w), false, 29)
  {
    hide PiecesText;
    var run := [Piece(NotWhitespace, AnyNumber)];
    WordText(w, run);
    WordWritable(w, run);
    RunText();
  }

  lemma RunText()
    ensures PiecesText([Piece(NotWhitespace, AnyNumber)], false) == "\\S*"
  {
    assert [Piece(NotWhitespace, AnyNumber)][1..] == [];
  }

  lemma RawSetting(w: string)
    ensures RawPieces(SettingPieces(w)) == SettingPieces(w) && EndsInRun(SettingPieces(w))
  {
  }

  /** `FindSetting`: where a setting stands on the command line, and what stands behind its equals sign up to the next
      white space.  Names of up to 26 characters are found as a whole. */
  method FindSetting(setting: string, line: string, compiled: array<Symbol>) returns (at: int, value: string)
    requires IsLiteral(setting) && '\0' !in setting && IsCString(line) && compiled.Length == MaxSymbols
    modifies compiled
    ensures IsFirstSetting(at, setting + "=", line)
    ensures |setting| <= 26 ==>
              && IsFirstPlace(at, setting + "=", line)
              && (0 <= at ==> IsValueAt(line, at + |setting| + 1, value))
  {
    hide IsFirstMatch, Accepts, AllWritable, SettingPieces, TakesRun, IsRun, Kept, AllClassBytes, PatternText,
         IsValueAt,
         EndsInRun, IsSettingAt, Occurs;
    var settingRegex := setting + "=" + "\\S*";
    ghost var w := setting + "=";
    SettingText(w);
    SettingKept(w);
    var matchLength;
    at, matchLength := ReMatch(settingRegex, line, compiled, false, SettingPieces(w), false);
    value := "";
    WritableIsValid(SettingPieces(w));
    SettingFound(at, w, line);
    ShortSetting(at, w, line);
    if at < 0 {
      return;
    }
    var offset := |settingRegex| - 3;
    if |setting| <= 26 {
      RawSetting(w);
      UnfoldSetting(w, line[at..], matchLength);
      RunIsValue(line, at, w, matchLength);
    }
    if 0 <= matchLength - offset && at + matchLength <= |line| {
      value := line[at + offset..at + matchLength];
    }
  }

  lemma UnfoldSetting(w: string, t: string, n: int)
    requires ValidPieces(SettingPieces(w)) && TakesRun(SettingPieces(w), t, n)
    ensures w <= t && |w| <= n && IsRun(NotWhitespace, t[|w|..], n - |w|)
  {
    WordTakesRun(w, NotWhitespace, t, n);
  }
}
