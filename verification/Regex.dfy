/** The meaning of regular expressions as the matcher's documentation gives it: each piece of a
    pattern is one atom with a repetition mark, and a pattern may end in `$`. */
module RegexMeaning {
  import opened Ctype

  /** A symbol of a compiled pattern.  A class carries what stands between its brackets. */
  datatype Symbol =
    | Unused | Dot | Begin | End | QuestionMark | Star | Plus
    | Char(ch: char) | CharClass(ccl: Class) | InvCharClass(ccl: Class)
    | Digit | NotDigit | Alpha | NotAlpha | Whitespace | NotWhitespace
  {
    predicate IsAtom()
    {
      && !(Unused? || Begin? || End? || QuestionMark? || Star? || Plus?)
      && (CharClass? || InvCharClass? ==> ccl.Plain())
    }
  }

  predicate IsAlphaNum(c: char)
  {
    c == '_' || IsAlpha(c) || IsDigit(c)
  }

  /** The test behind an escape inside a class: a letter that names a class, or the letter itself. */
  predicate MatchMetaChar(c: char, m: char)
  {
    match m
    case 'd' => IsDigit(c)
    case 'D' => !IsDigit(c)
    case 'w' => IsAlphaNum(c)
    case 'W' => !IsAlphaNum(c)
    case 's' => IsSpace(c)
    case 'S' => !IsSpace(c)
    case _ => c == m
  }

  /** What a class may list.  A range whose ends are the wrong way round stands for its two ends. */
  datatype ClassItem = Single(ch: char) | Range(lo: char, hi: char) | Escape(m: char)
  {
    /** The items whose text the scan cannot mistake for something else. */
    predicate Plain()
    {
      match this
      case Single(ch) => ch != '-' && ch != '\\' && ch != '\0'
      case Range(lo, hi) => lo != '-' && lo != '\\' && lo != '\0' && hi != '-' && hi != '\\' && hi != '\0'
      case Escape(m) => m != '-' && m != '\0'
    }

    function Text(): string
    {
      match this
      case Single(ch) => [ch]
      case Range(lo, hi) => [lo, '-', hi]
      case Escape(m) => ['\\', m]
    }

    predicate Has(c: char)
    {
      match this
      case Single(ch) => c == ch
      case Range(lo, hi) => lo <= c <= hi || c == lo || c == hi
      case Escape(m) => MatchMetaChar(c, m)
    }
  }

  function ClassText(items: seq<ClassItem>): string
  {
    if items == [] then "" else items[0].Text() + ClassText(items[1..])
  }

  // ---------------------------------------------------------------- the class scan

  predicate MatchRange(c: char, s: string, i: nat)
  {
    && c != '-' && CharAt(s, i) != '\0' && CharAt(s, i) != '-' && CharAt(s, i + 1) == '-'
    && CharAt(s, i + 2) != '\0' && CharAt(s, i) <= c <= CharAt(s, i + 2)
  }

  predicate IsMetaChar(c: char)
  {
    c in {'s', 'S', 'w', 'W', 'd', 'D'}
  }

  /** What the scan of a class decides from position `i` on.  The byte before the first character
      and the one after the last are both zero. */
  predicate ClassFrom(c: char, s: string, i: nat)
    decreases |s| + 1 - i
  {
    if MatchRange(c, s, i) then true
    else if CharAt(s, i) == '\\' then
      if MatchMetaChar(c, CharAt(s, i + 1)) || (c == CharAt(s, i + 1) && !IsMetaChar(c)) then true
      else i + 1 < |s| && ClassFrom(c, s, i + 2)
    else if c == CharAt(s, i) then
      c != '-' || i == 0 || i + 1 >= |s|
    else i < |s| && ClassFrom(c, s, i + 1)
  }

  ghost predicate AnyHas(items: seq<ClassItem>, c: char)
  {
    exists k :: 0 <= k < |items| && items[k].Has(c)
  }

  lemma AnyHasFirst(items: seq<ClassItem>, c: char)
    requires items != []
    ensures AnyHas(items, c) <==> items[0].Has(c) || AnyHas(items[1..], c)
  {
    if AnyHas(items[1..], c) {
      var k :| 0 <= k < |items[1..]| && items[1..][k].Has(c);
      assert items[k + 1].Has(c);
    }
    if AnyHas(items, c) && !items[0].Has(c) {
      var k :| 0 <= k < |items| && items[k].Has(c);
      assert items[1..][k - 1].Has(c);
    }
  }

  /** A class finds a dash through an escape such as `\W` or as the dash it ends in, and only if no range
      comes before: the dash inside the first range ends the scan. */
  ghost predicate FindsDash(items: seq<ClassItem>, last: bool)
  {
    exists k :: 0 <= k <= |items| && ShowsDash(items, last, k) && forall j :: 0 <= j < k ==> !items[j].Range?
  }

  ghost predicate ShowsDash(items: seq<ClassItem>, last: bool, k: nat)
    requires k <= |items|
  {
    if k == |items| then last else items[k].Escape? && items[k].Has('-')
  }

  lemma FindsDashFirst(items: seq<ClassItem>, last: bool)
    requires items != []
    ensures FindsDash(items, last) <==>
            !items[0].Range? && ((items[0].Escape? && items[0].Has('-')) || FindsDash(items[1..], last))
  {
    var rest := items[1..];
    if FindsDash(items, last) {
      var k :| 0 <= k <= |items| && ShowsDash(items, last, k) && forall j :: 0 <= j < k ==> !items[j].Range?;
      if k > 0 {
        assert ShowsDash(rest, last, k - 1);
      }
    }
    if !items[0].Range? && items[0].Escape? && items[0].Has('-') {
      assert ShowsDash(items, last, 0);
    }
    if !items[0].Range? && FindsDash(rest, last) {
      var k :| 0 <= k <= |rest| && ShowsDash(rest, last, k) && forall j :: 0 <= j < k ==> !rest[j].Range?;
      assert ShowsDash(items, last, k + 1);
      assert forall j :: 1 <= j < k + 1 ==> !rest[j - 1].Range? && items[j] == rest[j - 1];
    }
  }

  /** What may stand between the brackets of a class: items, with a dash before the first or behind the last
      standing for itself; or any text at all, of which only the scan says what it means. */
  datatype Class = Listed(first: bool, items: seq<ClassItem>, last: bool) | Scanned(text: string)
  {
    predicate Plain()
    {
      Listed? ==> forall k :: 0 <= k < |items| ==> items[k].Plain()
    }

    function Text(): string
    {
      match this
      case Listed(first, items, last) => Dash(first) + ClassText(items) + Dash(last)
      case Scanned(text) => text
    }

    ghost predicate Has(c: char)
    {
      match this
      case Listed(first, items, last) =>
        if c == '-' then first || FindsDash(items, last) else AnyHas(items, c)
      case Scanned(text) => ClassFrom(c, text, 0)
    }
  }

  function Dash(present: bool): string
  {
    if present then "-" else ""
  }

  /** The scan of a class finds exactly the characters its items stand for. */
  lemma ClassMeaning(c: char, ccl: Class)
    requires c != '\0' && ccl.Plain()
    ensures ClassFrom(c, ccl.Text(), 0) <==> ccl.Has(c)
  {
    if ccl.Listed? {
      var s, start := ccl.Text(), |Dash(ccl.first)|;
      assert s[start..] == ClassText(ccl.items) + Dash(ccl.last);
      if c != '-' {
        ItemsMeaning(c, s, start, ccl.items, ccl.last);
      } else if !ccl.first {
        DashMeaning(s, 0, ccl.items, ccl.last);
      }
    }
  }

  /** A dash at the end of a class is found exactly if the class has no range. */
  lemma DashAtTheEnd(items: seq<ClassItem>)
    requires forall k :: 0 <= k < |items| ==> items[k].Plain() && !items[k].Escape?
    ensures var ccl := Listed(false, items, true);
            && ccl.Text() == ClassText(items) + "-"
            && (ClassFrom('-', ccl.Text(), 0) <==> forall k :: 0 <= k < |items| ==> !items[k].Range?)
  {
    hide ClassFrom, FindsDash, ClassText;
    ClassMeaning('-', Listed(false, items, true));
    LastDashShows(items);
  }

  lemma LastDashShows(items: seq<ClassItem>)
    requires forall k :: 0 <= k < |items| ==> !items[k].Escape?
    ensures FindsDash(items, true) <==> forall k :: 0 <= k < |items| ==> !items[k].Range?
  {
    assert ShowsDash(items, true, |items|);
  }

  lemma {:induction false} ItemsMeaning(c: char, s: string, i: nat, items: seq<ClassItem>, last: bool)
    requires c != '-' && c != '\0' && (forall k :: 0 <= k < |items| ==> items[k].Plain())
    requires i <= |s| && s[i..] == ClassText(items) + Dash(last)
    ensures ClassFrom(c, s, i) <==> AnyHas(items, c)
    decreases |items|
  {
    if items == [] {
      assert s[i..] == Dash(last);
      assert last ==> s[i] == s[i..][0];
    } else {
      var rest := items[1..];
      var e := TextSplits(s, i, items, last);
      NextItemIsPlain(rest);
      assert e < |s| ==> s[e] == s[e..][0];
      ItemsMeaning(c, s, e, rest, last);
      OneItem(c, s, i, items[0]);
      AnyHasFirst(items, c);
    }
  }

  /** The text of the first item, and where that of the others begins. */
  lemma TextSplits(s: string, i: nat, items: seq<ClassItem>, last: bool) returns (e: nat)
    requires i <= |s| && s[i..] == ClassText(items) + Dash(last) && items != []
    ensures e == i + |items[0].Text()| <= |s| && s[i..e] == items[0].Text()
    ensures s[e..] == ClassText(items[1..]) + Dash(last)
  {
    var t, rest := items[0].Text(), items[1..];
    e := i + |t|;
    assert s[i..] == t + (ClassText(rest) + Dash(last));
    assert s[i..e] == s[i..][..|t|] == t;
    assert s[e..] == s[i..][|t|..] == ClassText(rest) + Dash(last);
  }

  lemma {:induction false} DashMeaning(s: string, i: nat, items: seq<ClassItem>, last: bool)
    requires forall k :: 0 <= k < |items| ==> items[k].Plain()
    requires i <= |s| && s[i..] == ClassText(items) + Dash(last)
    ensures ClassFrom('-', s, i) <==> FindsDash(items, last)
    decreases |items|
  {
    if items == [] {
      assert s[i..] == Dash(last);
      assert last ==> s[i] == s[i..][0];
      assert ShowsDash(items, last, 0) == last;
    } else {
      var e := TextSplits(s, i, items, last);
      DashMeaning(s, e, items[1..], last);
      DashInItem(s, i, items[0]);
      FindsDashFirst(items, last);
    }
  }

  lemma DashInItem(s: string, i: nat, item: ClassItem)
    requires item.Plain()
    requires var t := item.Text(); i + |t| <= |s| && s[i..i + |t|] == t
    ensures ClassFrom('-', s, i) <==>
            !item.Range? && ((item.Escape? && item.Has('-')) || ClassFrom('-', s, i + |item.Text()|))
  {
    var t := item.Text();
    forall k | 0 <= k < |t| ensures s[i + k] == t[k] {
      assert s[i..i + |t|][k] == t[k];
    }
    assert s[i + 0] == t[0];
    if item.Range? {
      assert s[i + 1] == '-' && i + 2 < |s|;
      assert !ClassFrom('-', s, i + 1);
    } else if item.Escape? {
      assert s[i + 1] == item.m;
    }
  }

  lemma NextItemIsPlain(items: seq<ClassItem>)
    requires forall k :: 0 <= k < |items| ==> items[k].Plain()
    ensures ClassText(items) != "" ==> ClassText(items)[0] != '-'
    ensures items == [] <==> ClassText(items) == ""
  {
  }

  lemma OneItem(c: char, s: string, i: nat, item: ClassItem)
    requires c != '-' && c != '\0' && item.Plain()
    requires var t := item.Text();
             && i + |t| <= |s| && s[i..i + |t|] == t
             && (CharAt(s, i + |t|) != '-' || CharAt(s, i + |t| + 1) == '\0')
    ensures ClassFrom(c, s, i) <==> item.Has(c) || ClassFrom(c, s, i + |item.Text()|)
  {
    var t := item.Text();
    forall k | 0 <= k < |t| ensures s[i + k] == t[k] {
      assert s[i..i + |t|][k] == t[k];
    }
    match item
    case Single(ch) =>
      assert s[i + 0] == ch;
    case Range(lo, hi) =>
      assert s[i + 0] == lo && s[i + 1] == '-' && s[i + 2] == hi;
      assert ClassFrom(c, s, i + 1) == ClassFrom(c, s, i + 2);
    case Escape(m) =>
      assert s[i + 0] == '\\' && s[i + 1] == m;
  }

  // ---------------------------------------------------------------- atoms, pieces, patterns

  ghost predicate MatchOne(p: Symbol, c: char)
    requires p.IsAtom()
  {
    match p
    case Dot => c != '\n' && c != '\r'
    case CharClass(ccl) => ccl.Has(c)
    case InvCharClass(ccl) => !ccl.Has(c)
    case Digit => IsDigit(c)
    case NotDigit => !IsDigit(c)
    case Alpha => IsAlphaNum(c)
    case NotAlpha => !IsAlphaNum(c)
    case Whitespace => IsSpace(c)
    case NotWhitespace => !IsSpace(c)
    case Char(ch) => ch == c
  }

  datatype Repeat = Once | AtMostOnce | AnyNumber | AtLeastOnce

  datatype Piece = Piece(atom: Symbol, repeat: Repeat)
  {
    predicate Valid()
    {
      atom.IsAtom()
    }

    /** The words this piece stands for. */
    ghost predicate Fits(w: string)
      requires Valid()
    {
      && (forall i :: 0 <= i < |w| ==> MatchOne(atom, w[i]))
      && match repeat
         case Once => |w| == 1
         case AtMostOnce => |w| <= 1
         case AnyNumber => true
         case AtLeastOnce => 1 <= |w|
    }

    function Symbols(): seq<Symbol>
    {
      match repeat
      case Once => [atom]
      case AtMostOnce => [atom, QuestionMark]
      case AnyNumber => [atom, Star]
      case AtLeastOnce => [atom, Plus]
    }
  }

  ghost predicate ValidPieces(pieces: seq<Piece>)
  {
    forall i :: 0 <= i < |pieces| ==> pieces[i].Valid()
  }

  /** `w` is a word of the language: it splits into one word for each piece, in order. */
  ghost predicate InLanguage(pieces: seq<Piece>, w: string)
    requires ValidPieces(pieces)
    decreases |pieces|
  {
    if pieces == [] then w == ""
    else exists k {:trigger w[..k]} ::
      0 <= k <= |w| && pieces[0].Fits(w[..k]) && InLanguage(pieces[1..], w[k..])
  }

  /** Some prefix of the text is in the language; with a trailing `$` it is the whole text. */
  ghost predicate Accepts(pieces: seq<Piece>, atEnd: bool, text: string)
    requires ValidPieces(pieces)
  {
    exists n {:trigger text[..n]} ::
      0 <= n <= |text| && InLanguage(pieces, text[..n]) && (atEnd ==> n == |text|)
  }

  lemma AcceptsNothing(atEnd: bool, text: string)
    ensures Accepts([], atEnd, text) <==> !atEnd || text == ""
  {
    if !atEnd || text == "" {
      assert text[..0] == "";
    }
  }

  /** A pattern accepts exactly when its first piece fits some prefix and the rest of the pattern
      accepts what follows. */
  lemma AcceptsFirst(pieces: seq<Piece>, atEnd: bool, text: string)
    requires ValidPieces(pieces) && pieces != []
    ensures Accepts(pieces, atEnd, text) <==>
            exists k {:trigger text[..k]} ::
              0 <= k <= |text| && pieces[0].Fits(text[..k]) && Accepts(pieces[1..], atEnd, text[k..])
  {
    if Accepts(pieces, atEnd, text) {
      var n :| 0 <= n <= |text| && InLanguage(pieces, text[..n]) && (atEnd ==> n == |text|);
      var w := text[..n];
      var k :| 0 <= k <= |w| && pieces[0].Fits(w[..k]) && InLanguage(pieces[1..], w[k..]);
      assert w[..k] == text[..k];
      assert w[k..] == text[k..][..n - k];
    }
    if k :| 0 <= k <= |text| && pieces[0].Fits(text[..k]) && Accepts(pieces[1..], atEnd, text[k..]) {
      var rest := text[k..];
      var m :| 0 <= m <= |rest| && InLanguage(pieces[1..], rest[..m]) && (atEnd ==> m == |rest|);
      var w := text[..k + m];
      assert w[..k] == text[..k] && w[k..] == rest[..m];
    }
  }
}

/** The matcher: greedy backtracking over a compiled pattern. */
module Regex {
  import opened Ctype
  import opened Memory
  import opened RegexMeaning

  /** A compiled pattern, as `re_compile` lays it out. */
  function Compiled(pieces: seq<Piece>, atEnd: bool): (s: seq<Symbol>)
    ensures 1 <= |s| && s[|s| - 1] == Unused
  {
    if pieces == [] then (if atEnd then [End, Unused] else [Unused])
    else pieces[0].Symbols() + Compiled(pieces[1..], atEnd)
  }

  /** Past the sentinel the matcher looks at nothing. */
  function SymbolAt(pattern: seq<Symbol>, i: nat): Symbol
  {
    if i < |pattern| then pattern[i] else Unused
  }

  /** What the first two symbols of a compiled pattern tell about its first piece. */
  lemma FirstSymbols(pieces: seq<Piece>, atEnd: bool)
    requires ValidPieces(pieces)
    ensures var s := Compiled(pieces, atEnd);
            var first, second := SymbolAt(s, 0), SymbolAt(s, 1);
            && (pieces == [] ==> first == (if atEnd then End else Unused) && second == Unused)
            && (pieces != [] ==>
                  && first == pieces[0].atom
                  && (second == QuestionMark <==> pieces[0].repeat == AtMostOnce)
                  && (second == Star <==> pieces[0].repeat == AnyNumber)
                  && (second == Plus <==> pieces[0].repeat == AtLeastOnce)
                  && pieces == [Piece(first, pieces[0].repeat)] + pieces[1..]
                  && |pieces[0].Symbols()| == (if pieces[0].repeat == Once then 1 else 2)
                  && s[|pieces[0].Symbols()|..] == Compiled(pieces[1..], atEnd))
  {
    if pieces != [] {
      var rest := Compiled(pieces[1..], atEnd);
      if pieces[1..] != [] {
        assert pieces[1].Valid() && rest[0] == pieces[1].atom;
      }
    }
  }

  /** The scan of a class, one character of the class (or one escape) at a time. */
  method MatchCharClass(c: char, s: string) returns (found: bool)
    ensures found <==> ClassFrom(c, s, 0)
  {
    var i: nat := 0;
    while true
      invariant ClassFrom(c, s, i) == ClassFrom(c, s, 0)
      invariant i <= |s|
      decreases |s| + 1 - i
    {
      if MatchRange(c, s, i) {
        return true;
      } else if CharAt(s, i) == '\\' {
        if MatchMetaChar(c, CharAt(s, i + 1)) {
          return true;
        } else if c == CharAt(s, i + 1) && !IsMetaChar(c) {
          return true;
        }
        i := i + 1;
      } else if c == CharAt(s, i) {
        if c == '-' {
          return i == 0 || i + 1 >= |s|;
        }
        return true;
      }
      if i >= |s| {
        return false;
      }
      i := i + 1;
    }
  }

  /** One character against one atom: the scan of the text of a class decides what the class stands for. */
  method MatchOneSymbol(p: Symbol, c: char) returns (ok: bool)
    requires p.IsAtom() && c != '\0'
    ensures ok <==> MatchOne(p, c)
  {
    match p
    case Dot => ok := c != '\n' && c != '\r';
    case CharClass(ccl) =>
      ok := MatchCharClass(c, ccl.Text());
      ClassMeaning(c, ccl);
    case InvCharClass(ccl) =>
      var found := MatchCharClass(c, ccl.Text());
      ok := !found;
      ClassMeaning(c, ccl);
    case Digit => ok := IsDigit(c);
    case NotDigit => ok := !IsDigit(c);
    case Alpha => ok := IsAlphaNum(c);
    case NotAlpha => ok := !IsAlphaNum(c);
    case Whitespace => ok := IsSpace(c);
    case NotWhitespace => ok := !IsSpace(c);
    case Char(ch) => ok := ch == c;
  }

  /** How far the text keeps matching one atom. */
  ghost predicate IsRun(p: Symbol, text: string, n: nat)
    requires p.IsAtom()
  {
    && n <= |text| && (forall i :: 0 <= i < n ==> MatchOne(p, text[i]))
    && (n < |text| ==> !MatchOne(p, text[n]))
  }

  /** The loop in front of the repetitions: it also counts what it passes. */
  method LongestRun(p: Symbol, text: string, length: int) returns (n: nat, matchLength: int)
    requires p.IsAtom() && IsCString(text)
    ensures IsRun(p, text, n) && matchLength == length + n
  {
    n, matchLength := 0, length;
    while n < |text|
      invariant n <= |text| && matchLength == length + n && forall i :: 0 <= i < n ==> MatchOne(p, text[i])
    {
      var ok := MatchOneSymbol(p, text[n]);
      if !ok {
        break;
      }
      n, matchLength := n + 1, matchLength + 1;
    }
  }

  /** Tries the rest of the pattern after every shorter run, longest first, down to `least`. */
  method BackOff(pattern: seq<Symbol>, text: string, run: nat, least: nat, length: int,
                 ghost pieces: seq<Piece>, ghost atEnd: bool)
    returns (ok: bool, matchLength: int)
    requires ValidPieces(pieces) && pattern == Compiled(pieces, atEnd) && run <= |text| && IsCString(text)
    ensures ok <==> exists k {:trigger text[k..]} :: least <= k <= run && Accepts(pieces, atEnd, text[k..])
    ensures pieces == [] && !atEnd && least <= run ==> ok && matchLength == length
    decreases |pieces|, 2
  {
    var k: int := run;
    matchLength := length;
    while least <= k
      invariant k <= run && (k < run ==> pieces != [] || atEnd) && (k == run ==> matchLength == length)
      invariant forall j {:trigger text[j..]} :: least <= j <= run && k < j ==> !Accepts(pieces, atEnd, text[j..])
    {
      var matched;
      if pieces == [] {
        AcceptsNothing(atEnd, text[k..]);
      }
      matched, matchLength := MatchPattern(pattern, text[k..], matchLength, pieces, atEnd);
      if matched {
        return true, matchLength;
      }
      k, matchLength := k - 1, matchLength - 1;
    }
    return false, matchLength;
  }

  method MatchQuestion(p: Symbol, pattern: seq<Symbol>, text: string, length: int,
                       ghost pieces: seq<Piece>, ghost atEnd: bool)
    returns (ok: bool, matchLength: int)
    requires p.IsAtom() && ValidPieces(pieces) && pattern == Compiled(pieces, atEnd) && IsCString(text)
    ensures ok <==> Accepts([Piece(p, AtMostOnce)] + pieces, atEnd, text)
    decreases |pieces|, 3
  {
    AcceptsFirst([Piece(p, AtMostOnce)] + pieces, atEnd, text);
    assert ([Piece(p, AtMostOnce)] + pieces)[1..] == pieces;
    assert text[..0] == "" && text[0..] == text;
    ok, matchLength := MatchPattern(pattern, text, length, pieces, atEnd);
    if ok {
      return true, matchLength;
    }
    if text != "" {
      assert text[..1] == [text[0]];
      var one := MatchOneSymbol(p, text[0]);
      if one {
        ok, matchLength := MatchPattern(pattern, text[1..], matchLength, pieces, atEnd);
        if ok {
          matchLength := matchLength + 1;
        }
      }
    }
  }

  /** A run of one atom can be any length up to the longest. */
  lemma RunLengths(p: Piece, text: string, run: nat, k: nat)
    requires p.Valid() && IsRun(p.atom, text, run) && k <= |text|
    requires p.repeat == AnyNumber || p.repeat == AtLeastOnce
    ensures p.Fits(text[..k]) <==> k <= run && (p.repeat == AtLeastOnce ==> 1 <= k)
  {
    var w := text[..k];
    if run < k {
      assert w[run] == text[run];
    }
  }

  method MatchStar(p: Symbol, pattern: seq<Symbol>, text: string, length: int,
                   ghost pieces: seq<Piece>, ghost atEnd: bool)
    returns (ok: bool, matchLength: int)
    requires p.IsAtom() && ValidPieces(pieces) && pattern == Compiled(pieces, atEnd) && IsCString(text)
    ensures ok <==> Accepts([Piece(p, AnyNumber)] + pieces, atEnd, text)
    ensures pieces == [] && !atEnd ==>
              ok && length <= matchLength && IsRun(p, text, matchLength - length)
    decreases |pieces|, 3
  {
    AcceptsFirst([Piece(p, AnyNumber)] + pieces, atEnd, text);
    assert ([Piece(p, AnyNumber)] + pieces)[1..] == pieces;
    var run;
    run, matchLength := LongestRun(p, text, length);
    forall k | 0 <= k <= |text|
      ensures Piece(p, AnyNumber).Fits(text[..k]) <==> k <= run
    {
      RunLengths(Piece(p, AnyNumber), text, run, k);
    }
    ok, matchLength := BackOff(pattern, text, run, 0, matchLength, pieces, atEnd);
    if ok {
      ghost var k :| 0 <= k <= run && Accepts(pieces, atEnd, text[k..]);
      assert Piece(p, AnyNumber).Fits(text[..k]);
    } else {
      matchLength := length;
    }
  }

  method MatchPlus(p: Symbol, pattern: seq<Symbol>, text: string, length: int,
                   ghost pieces: seq<Piece>, ghost atEnd: bool)
    returns (ok: bool, matchLength: int)
    requires p.IsAtom() && ValidPieces(pieces) && pattern == Compiled(pieces, atEnd) && IsCString(text)
    ensures ok <==> Accepts([Piece(p, AtLeastOnce)] + pieces, atEnd, text)
    decreases |pieces|, 3
  {
    AcceptsFirst([Piece(p, AtLeastOnce)] + pieces, atEnd, text);
    assert ([Piece(p, AtLeastOnce)] + pieces)[1..] == pieces;
    var run;
    run, matchLength := LongestRun(p, text, length);
    forall k | 0 <= k <= |text|
      ensures Piece(p, AtLeastOnce).Fits(text[..k]) <==> 1 <= k <= run
    {
      RunLengths(Piece(p, AtLeastOnce), text, run, k);
    }
    ok, matchLength := BackOff(pattern, text, run, 1, matchLength, pieces, atEnd);
    if ok {
      ghost var k :| 1 <= k <= run && Accepts(pieces, atEnd, text[k..]);
      assert Piece(p, AtLeastOnce).Fits(text[..k]);
    }
  }

  lemma AcceptsOnce(pieces: seq<Piece>, atEnd: bool, text: string)
    requires ValidPieces(pieces) && pieces != [] && pieces[0].repeat == Once
    ensures Accepts(pieces, atEnd, text) <==>
            text != "" && MatchOne(pieces[0].atom, text[0]) && Accepts(pieces[1..], atEnd, text[1..])
  {
    AcceptsFirst(pieces, atEnd, text);
    if text != "" {
      assert text[..1] == [text[0]];
    }
  }

  /** How much of the text a pattern takes when nothing in it is repeated but the last piece, and that any number of
      times: the pieces before it fit one character each, and then comes a run. */
  ghost predicate TakesRun(pieces: seq<Piece>, text: string, n: int)
    requires ValidPieces(pieces)
    decreases |pieces|
  {
    pieces != [] &&
    if |pieces| == 1 then pieces[0].repeat == AnyNumber && 0 <= n && IsRun(pieces[0].atom, text, n)
    else
      && pieces[0].repeat == Once && text != "" && MatchOne(pieces[0].atom, text[0])
      && TakesRun(pieces[1..], text[1..], n - 1)
  }

  /** Such a pattern: pieces without repetition, and one repeated any number of times. */
  predicate EndsInRun(pieces: seq<Piece>)
  {
    pieces != [] && pieces[|pieces| - 1].repeat == AnyNumber
    && forall i :: 0 <= i < |pieces| - 1 ==> pieces[i].repeat == Once
  }

  lemma RunAlone(pieces: seq<Piece>, text: string)
    requires ValidPieces(pieces) && EndsInRun(pieces)
    ensures pieces != [] && pieces[0].repeat == (if |pieces| == 1 then AnyNumber else Once)
    ensures |pieces| == 1 ==>
              && pieces[1..] == []
              && forall n :: TakesRun(pieces, text, n) <==> 0 <= n && IsRun(pieces[0].atom, text, n)
  {
  }

  /** The cases that end the matcher's loop: the pattern is used up, or the next piece repeats. */
  method MatchMarked(here: seq<Symbol>, text: string, length: int, ghost rest: seq<Piece>, ghost atEnd: bool)
    returns (decided: bool, ok: bool, matchLength: int)
    requires ValidPieces(rest) && here == Compiled(rest, atEnd) && IsCString(text)
    ensures decided <==> rest == [] || rest[0].repeat != Once
    ensures decided ==> (ok <==> Accepts(rest, atEnd, text))
    ensures !decided || rest == [] ==> matchLength == length
    ensures decided && !atEnd && EndsInRun(rest) ==> ok && TakesRun(rest, text, matchLength - length)
    decreases |rest|, 0
  {
    hide TakesRun, EndsInRun, IsRun, Accepts, MatchOne, Compiled;
    decided, matchLength := true, length;
    FirstSymbols(rest, atEnd);
    if EndsInRun(rest) {
      RunAlone(rest, text);
    }
    var first, second := SymbolAt(here, 0), SymbolAt(here, 1);
    if first == Unused {
      AcceptsNothing(atEnd, text);
      return true, true, length;
    }
    if second == QuestionMark {
      ok, matchLength := MatchQuestion(first, here[2..], text, length, rest[1..], atEnd);
    } else if second == Star {
      ok, matchLength := MatchStar(first, here[2..], text, length, rest[1..], atEnd);
    } else if second == Plus {
      ok, matchLength := MatchPlus(first, here[2..], text, length, rest[1..], atEnd);
    } else if first == End && second == Unused {
      AcceptsNothing(atEnd, text);
      ok := text == "";
    } else {
      decided, ok := false, false;
    }
  }

  /** What `rest` takes of `t` makes, with the `k` characters before, what `pieces` take of `text`. */
  ghost predicate TakesOn(pieces: seq<Piece>, text: string, rest: seq<Piece>, t: string, k: int)
    requires ValidPieces(pieces) && ValidPieces(rest)
  {
    forall n {:trigger TakesRun(rest, t, n)} :: TakesRun(rest, t, n) ==> TakesRun(pieces, text, n + k)
  }

  lemma NothingTaken(pieces: seq<Piece>, text: string)
    requires ValidPieces(pieces)
    ensures TakesOn(pieces, text, pieces, text, 0)
  {
  }

  lemma AllTaken(pieces: seq<Piece>, text: string, rest: seq<Piece>, t: string, k: int, n: int)
    requires ValidPieces(pieces) && ValidPieces(rest) && TakesOn(pieces, text, rest, t, k) && TakesRun(rest, t, n)
    ensures TakesRun(pieces, text, n + k)
  {
  }

  lemma OneTaken(pieces: seq<Piece>, text: string, rest: seq<Piece>, t: string, k: int)
    requires ValidPieces(pieces) && ValidPieces(rest) && TakesOn(pieces, text, rest, t, k) && EndsInRun(rest)
    requires rest[0].repeat == Once && t != "" && MatchOne(rest[0].atom, t[0])
    ensures EndsInRun(rest[1..]) && TakesOn(pieces, text, rest[1..], t[1..], k + 1)
  {
    hide MatchOne;
    forall n | TakesRun(rest[1..], t[1..], n) ensures TakesRun(pieces, text, n + (k + 1)) {
      assert TakesRun(rest, t, n + 1);
    }
  }

  lemma OncePiece(rest: seq<Piece>, atEnd: bool)
    requires ValidPieces(rest) && rest != [] && rest[0].repeat == Once
    ensures var here := Compiled(rest, atEnd);
            here[0] == rest[0].atom && here[0].IsAtom() && here[1..] == Compiled(rest[1..], atEnd)
  {
    FirstSymbols(rest, atEnd);
  }

  /** The matcher decides the language: it succeeds exactly when a prefix of the text is in it. */
  method MatchPattern(pattern: seq<Symbol>, text: string, length: int, ghost pieces: seq<Piece>, ghost atEnd: bool)
    returns (ok: bool, matchLength: int)
    requires ValidPieces(pieces) && pattern == Compiled(pieces, atEnd) && IsCString(text)
    ensures ok <==> Accepts(pieces, atEnd, text)
    ensures pieces == [] ==> matchLength == length
    ensures !atEnd && EndsInRun(pieces) ==>
              if ok then TakesRun(pieces, text, matchLength - length) else matchLength == length
    decreases |pieces|, 1
  {
    hide TakesRun, EndsInRun, TakesOn, Accepts, MatchOne, Compiled;
    var here, t := pattern, text;
    matchLength := length;
    ghost var rest := pieces;
    NothingTaken(pieces, text);
    while true
      invariant ValidPieces(rest) && |rest| <= |pieces| && here == Compiled(rest, atEnd) && IsCString(t)
      invariant Accepts(pieces, atEnd, text) <==> Accepts(rest, atEnd, t)
      invariant pieces == [] ==> matchLength == length
      invariant EndsInRun(pieces) ==> EndsInRun(rest) && TakesOn(pieces, text, rest, t, matchLength - length)
      decreases |rest|
    {
      var decided;
      ghost var before := matchLength;
      decided, ok, matchLength := MatchMarked(here, t, matchLength, rest, atEnd);
      if decided {
        if !atEnd && EndsInRun(pieces) {
          AllTaken(pieces, text, rest, t, before - length, matchLength - before);
        }
        return;
      }
      OncePiece(rest, atEnd);
      AcceptsOnce(rest, atEnd, t);
      matchLength := matchLength + 1;
      if t == "" {
        return false, length;
      }
      var one := MatchOneSymbol(here[0], t[0]);
      if !one {
        return false, length;
      }
      if EndsInRun(pieces) {
        OneTaken(pieces, text, rest, t, before - length);
      }
      here, t, rest := here[1..], t[1..], rest[1..];
    }
  }

  lemma SuffixIsCString(text: string, at: nat)
    requires IsCString(text) && at <= |text|
    ensures IsCString(text[at..])
  {
  }

  /** `re_matchp`: an anchored pattern is tried at the start only and answers 0; any other pattern
      answers the least index, before the end of the text, at which it matches. */
  method ReMatchp(pattern: Option<seq<Symbol>>, text: string,
                  ghost begin: bool, ghost pieces: seq<Piece>, ghost atEnd: bool)
    returns (idx: int, matchLength: int)
    requires ValidPieces(pieces) && IsCString(text)
    requires pattern.Some? ==>
               pattern.value == if begin then [Begin] + Compiled(pieces, atEnd) else Compiled(pieces, atEnd)
    ensures pattern.None? ==> idx == -1 && matchLength == 0
    ensures pattern.Some? && begin ==> idx == if Accepts(pieces, atEnd, text) then 0 else -1
    ensures pattern.Some? && !begin ==> -1 <= idx < |text| || idx == -1
    ensures pattern.Some? && !begin && 0 <= idx ==>
              Accepts(pieces, atEnd, text[idx..]) && forall j :: 0 <= j < idx ==> !Accepts(pieces, atEnd, text[j..])
    ensures pattern.Some? && !begin && idx == -1 ==>
              forall j :: 0 <= j < |text| ==> !Accepts(pieces, atEnd, text[j..])
    ensures pattern.Some? && 0 <= idx && !atEnd && EndsInRun(pieces) ==> TakesRun(pieces, text[idx..], matchLength)
  {
    hide TakesRun, EndsInRun, Accepts, MatchOne, IsRun, IsCString;
    matchLength := 0;
    if pattern.None? {
      return -1, matchLength;
    }
    var symbols := pattern.value;
    FirstSymbols(pieces, atEnd);
    var ok;
    if symbols[0] == Begin {
      assert symbols[1..] == Compiled(pieces, atEnd);
      ok, matchLength := MatchPattern(symbols[1..], text, matchLength, pieces, atEnd);
      assert text[0..] == text;
      return if ok then 0 else -1, matchLength;
    }
    idx := -1;
    var at: nat := 0;
    while true
      invariant at == idx + 1 <= |text|
      invariant forall j :: 0 <= j < at ==> !Accepts(pieces, atEnd, text[j..])
      invariant !atEnd && EndsInRun(pieces) ==> matchLength == 0
      decreases |text| - at
    {
      idx := idx + 1;
      SuffixIsCString(text, at);
      ok, matchLength := MatchPattern(symbols, text[at..], matchLength, pieces, atEnd);
      if ok {
        return if at == |text| then -1 else idx, matchLength;
      }
      if at == |text| {
        return -1, matchLength;
      }
      at := at + 1;
    }
  }
}
