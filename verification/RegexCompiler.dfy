/** Compiling the text of a pattern into symbols. */
module RegexCompiler {
  import opened Ctype
  import opened Memory
  import opened RegexMeaning
  import opened Regex

  const MaxSymbols: nat := 30
  const MaxClassBytes: nat := 40

  // ---------------------------------------------------------------- what the compiler makes of a text

  /** One symbol read, with what follows it and how much of the class buffer is in use; a backslash at the end of the
      text makes no symbol, and what was there before stays. */
  datatype Reading = Failed | Read(symbol: Option<Symbol>, next: nat, used: nat)

  /** The text of a class, from position `k` up to its closing bracket. */
  function ClassEnd(p: string, k: nat, used: nat): (r: Option<(nat, nat)>)
    ensures r.Some? ==> k <= r.value.0 < |p| && p[r.value.0] == ']' && r.value.1 == used + (r.value.0 - k) + 1
    ensures r.Some? ==> r.value.1 <= MaxClassBytes
    decreases |p| - k
  {
    if |p| <= k then None
    else if p[k] == ']' then if used < MaxClassBytes then Some((k, used + 1)) else None
    else if p[k] == '\\' then
      if MaxClassBytes - 1 <= used || |p| <= k + 1 then None else ClassEnd(p, k + 2, used + 2)
    else if MaxClassBytes <= used then None
    else ClassEnd(p, k + 1, used + 1)
  }

  function Escaped(c: char): Symbol
  {
    match c
    case 'd' => Digit
    case 'D' => NotDigit
    case 'w' => Alpha
    case 'W' => NotAlpha
    case 's' => Whitespace
    case 'S' => NotWhitespace
    case _ => Char(c)
  }

  function Reads(p: string, i: nat, used: nat): (r: Reading)
    requires i < |p|
    ensures r.Read? ==> i < r.next <= |p|
  {
    match p[i]
    case '^' => Read(Some(Begin), i + 1, used)
    case '$' => Read(Some(End), i + 1, used)
    case '.' => Read(Some(Dot), i + 1, used)
    case '*' => Read(Some(Star), i + 1, used)
    case '+' => Read(Some(Plus), i + 1, used)
    case '?' => Read(Some(QuestionMark), i + 1, used)
    case '\\' =>
      if i + 1 < |p| then Read(Some(Escaped(p[i + 1])), i + 2, used) else Read(None, i + 1, used)
    case '[' =>
      var inverted := CharAt(p, i + 1) == '^';
      var start := if inverted then i + 2 else i + 1;
      var end := ClassEnd(p, start, used);
      if end.None? then Failed
      else
        var text := Scanned(p[start..end.value.0]);
        Read(Some(if inverted then InvCharClass(text) else CharClass(text)), end.value.0 + 1, end.value.1)
    case c => Read(Some(Char(c)), i + 1, used)
  }

  /** The symbols from number `j` on, read from position `i`: at most 29 in all, and the mark that ends them. */
  function CompiledFrom(p: string, i: nat, j: nat, used: nat, was: seq<Symbol>): (r: Option<seq<Symbol>>)
    requires i <= |p| && j < MaxSymbols == |was|
    ensures r.Some? ==> 1 <= |r.value| && j + |r.value| <= MaxSymbols
    decreases |p| - i
  {
    if i == |p| || j + 1 == MaxSymbols then Some([Unused])
    else
      var reading := Reads(p, i, used);
      if reading.Failed? then None
      else
        var rest := CompiledFrom(p, reading.next, j + 1, reading.used, was);
        if rest.None? then None else Some([if reading.symbol.Some? then reading.symbol.value else was[j]] + rest.value)
  }

  // ---------------------------------------------------------------- re_compile

  /** The loop that copies the text of a class. */
  method CopyClass(p: string, start: nat, used: nat) returns (ok: bool, text: string, i: nat, bufferIndex: nat)
    requires '\0' !in p && start <= |p|
    ensures ok == ClassEnd(p, start, used).Some?
    ensures ok ==> ClassEnd(p, start, used) == Some((i, bufferIndex)) && text == p[start..i]
  {
    ok, text, i, bufferIndex := false, "", start, used;
    while CharAt(p, i) != ']' && CharAt(p, i) != '\0'
      invariant start <= i <= |p| && ClassEnd(p, start, used) == ClassEnd(p, i, bufferIndex) && text == p[start..i]
      decreases |p| - i
    {
      if p[i] == '\\' {
        if bufferIndex >= MaxClassBytes - 1 || CharAt(p, i + 1) == '\0' {
          return;
        }
        text, i, bufferIndex := text + [p[i]], i + 1, bufferIndex + 1;
      } else if bufferIndex >= MaxClassBytes {
        return;
      }
      text, i, bufferIndex := text + [p[i]], i + 1, bufferIndex + 1;
    }
    if bufferIndex >= MaxClassBytes || CharAt(p, i) == '\0' {
      return;
    }
    ok, bufferIndex := true, bufferIndex + 1;
  }

  /** One turn of the compiler's loop. */
  method ReadSymbol(p: string, i: nat, used: nat) returns (r: Reading)
    requires '\0' !in p && i < |p|
    ensures r == Reads(p, i, used)
  {
    var c := p[i];
    if c == '^' {
      return Read(Some(Begin), i + 1, used);
    } else if c == '$' {
      return Read(Some(End), i + 1, used);
    } else if c == '.' {
      return Read(Some(Dot), i + 1, used);
    } else if c == '*' {
      return Read(Some(Star), i + 1, used);
    } else if c == '+' {
      return Read(Some(Plus), i + 1, used);
    } else if c == '?' {
      return Read(Some(QuestionMark), i + 1, used);
    } else if c == '\\' {
      if CharAt(p, i + 1) == '\0' {
        return Read(None, i + 1, used);
      }
      return Read(Some(Escaped(p[i + 1])), i + 2, used);
    } else if c == '[' {
      var inverted := CharAt(p, i + 1) == '^';
      var start := if inverted then i + 2 else i + 1;
      var ok, text, end, next := CopyClass(p, start, used);
      if !ok {
        return Failed;
      }
      return Read(Some(if inverted then InvCharClass(Scanned(text)) else CharClass(Scanned(text))), end + 1, next);
    }
    return Read(Some(Char(c)), i + 1, used);
  }

  function Joined(front: seq<Symbol>, rest: Option<seq<Symbol>>): Option<seq<Symbol>>
  {
    if rest.None? then None else Some(front + rest.value)
  }

  lemma OneMoreSymbol(front: seq<Symbol>, p: string, i: nat, j: nat, used: nat, was: seq<Symbol>, s: Symbol)
    requires i < |p| && j + 1 < MaxSymbols == |was|
    requires var reading := Reads(p, i, used);
             reading.Read? && s == if reading.symbol.Some? then reading.symbol.value else was[j]
    ensures var reading := Reads(p, i, used);
            Joined(front, CompiledFrom(p, i, j, used, was))
            == Joined(front + [s], CompiledFrom(p, reading.next, j + 1, reading.used, was))
  {
    hide Reads;
    var reading := Reads(p, i, used);
    var rest := CompiledFrom(p, reading.next, j + 1, reading.used, was);
    assert rest.Some? ==> front + ([s] + rest.value) == front + [s] + rest.value;
  }

  lemma NothingInFront(rest: Option<seq<Symbol>>)
    ensures Joined([], rest) == rest
  {
    assert rest.Some? ==> [] + rest.value == rest.value;
  }

  /** `re_compile`, into its buffer of 30 symbols: how many there are before the mark that ends them, or nothing when
      a class is not closed or does not fit. */
  method ReCompile(pattern: string, compiled: array<Symbol>) returns (n: Option<nat>)
    requires '\0' !in pattern && compiled.Length == MaxSymbols
    modifies compiled
    ensures n.Some? <==> CompiledFrom(pattern, 0, 0, 1, old(compiled[..])).Some?
    ensures n.Some? ==>
              n.value < MaxSymbols && CompiledFrom(pattern, 0, 0, 1, old(compiled[..])) == Some(compiled[..n.value + 1])
  {
    hide Reads;
    ghost var was := compiled[..];
    var i, j, used := 0, 0, 1;
    assert compiled[..0] == [];
    NothingInFront(CompiledFrom(pattern, 0, 0, 1, was));
    while CharAt(pattern, i) != '\0' && j + 1 < MaxSymbols
      invariant i <= |pattern| && j < MaxSymbols && compiled[j..] == was[j..]
      invariant CompiledFrom(pattern, 0, 0, 1, was)
                == Joined(compiled[..j], CompiledFrom(pattern, i, j, used, was))
      decreases |pattern| - i
    {
      var reading := ReadSymbol(pattern, i, used);
      if reading.Failed? {
        return None;
      }
      ghost var front := compiled[..j];
      assert compiled[j] == compiled[j..][0] == was[j..][0] == was[j];
      if reading.symbol.Some? {
        compiled[j] := reading.symbol.value;
      }
      OneMoreSymbol(front, pattern, i, j, used, was, compiled[j]);
      assert compiled[..j + 1] == front + [compiled[j]];
      i, j, used := reading.next, j + 1, reading.used;
    }
    ghost var front := compiled[..j];
    compiled[j] := Unused;
    assert compiled[..j + 1] == front + [Unused];
    return Some(j);
  }

  // ---------------------------------------------------------------- the text of a pattern

  /** How an atom is written.  The characters with a meaning of their own get a backslash. */
  function AtomText(p: Symbol): (t: string)
    requires p.IsAtom()
    ensures t != ""
  {
    match p
    case Dot => "."
    case Char(ch) => if ch in "^$.*+?\\[" then ['\\', ch] else [ch]
    case Digit => "\\d"
    case NotDigit => "\\D"
    case Alpha => "\\w"
    case NotAlpha => "\\W"
    case Whitespace => "\\s"
    case NotWhitespace => "\\S"
    case CharClass(ccl) => "[" + ccl.Text() + "]"
    case InvCharClass(ccl) => "[^" + ccl.Text() + "]"
  }

  function MarkText(r: Repeat): string
  {
    match r
    case Once => ""
    case AtMostOnce => "?"
    case AnyNumber => "*"
    case AtLeastOnce => "+"
  }

  function PiecesText(pieces: seq<Piece>, atEnd: bool): string
    requires ValidPieces(pieces)
  {
    if pieces == [] then (if atEnd then "$" else "")
    else AtomText(pieces[0].atom) + MarkText(pieces[0].repeat) + PiecesText(pieces[1..], atEnd)
  }

  function PatternText(begin: bool, pieces: seq<Piece>, atEnd: bool): string
    requires ValidPieces(pieces)
  {
    (if begin then "^" else "") + PiecesText(pieces, atEnd)
  }

  /** The text of a class that the compiler takes as it is: no closing bracket but behind a backslash, and no
      backslash at the end. */
  predicate CopiesWhole(text: string)
  {
    text == ""
    || (if text[0] == '\\' then 2 <= |text| && CopiesWhole(text[2..]) else text[0] != ']' && CopiesWhole(text[1..]))
  }

  /** The atom can be written. */
  predicate Writable(p: Symbol)
  {
    match p
    case CharClass(ccl) => CopiesWhole(ccl.Text()) && CharAt(ccl.Text(), 0) != '^'
    case InvCharClass(ccl) => CopiesWhole(ccl.Text())
    case _ => true
  }

  ghost predicate AllWritable(pieces: seq<Piece>)
  {
    forall i :: 0 <= i < |pieces| ==> pieces[i].Valid() && Writable(pieces[i].atom)
  }

  /** How much of the class buffer an atom takes: its text and a mark behind it. */
  function ClassBytes(p: Symbol): nat
  {
    match p
    case CharClass(ccl) => |ccl.Text()| + 1
    case InvCharClass(ccl) => |ccl.Text()| + 1
    case _ => 0
  }

  function AllClassBytes(pieces: seq<Piece>): nat
  {
    if pieces == [] then 0 else ClassBytes(pieces[0].atom) + AllClassBytes(pieces[1..])
  }

  /** The symbol read back: of a class only its text is known. */
  function Raw(p: Symbol): (r: Symbol)
    ensures p.IsAtom() ==> r.IsAtom()
  {
    match p
    case CharClass(ccl) => CharClass(Scanned(ccl.Text()))
    case InvCharClass(ccl) => InvCharClass(Scanned(ccl.Text()))
    case _ => p
  }

  function RawPieces(pieces: seq<Piece>): (r: seq<Piece>)
    ensures |r| == |pieces| && forall i :: 0 <= i < |r| ==> r[i] == Piece(Raw(pieces[i].atom), pieces[i].repeat)
  {
    seq(|pieces|, i requires 0 <= i < |pieces| => Piece(Raw(pieces[i].atom), pieces[i].repeat))
  }

  /** The pieces for which there are `room` symbols.  A repetition whose mark has no room is none. */
  function Kept(pieces: seq<Piece>, room: nat): (r: seq<Piece>)
    ensures ValidPieces(pieces) ==> ValidPieces(r)
  {
    if pieces == [] || room == 0 then []
    else if pieces[0].repeat == Once then [pieces[0]] + Kept(pieces[1..], room - 1)
    else if room == 1 then [Piece(pieces[0].atom, Once)]
    else [pieces[0]] + Kept(pieces[1..], room - 2)
  }

  function SymbolCount(pieces: seq<Piece>): nat
  {
    if pieces == [] then 0 else (if pieces[0].repeat == Once then 1 else 2) + SymbolCount(pieces[1..])
  }

  /** Whether there is room for the anchor at the end, too. */
  predicate EndKept(pieces: seq<Piece>, atEnd: bool, room: nat)
  {
    atEnd && SymbolCount(pieces) < room
  }

  /** The text of a class is read up to its bracket, if it fits. */
  lemma {:induction false} ReadsClass(p: string, k: nat, used: nat, text: string)
    requires CopiesWhole(text) && used <= MaxClassBytes
    requires k + |text| < |p| && p[k..k + |text|] == text && p[k + |text|] == ']'
    ensures ClassEnd(p, k, used)
            == if used + |text| + 1 <= MaxClassBytes then Some((k + |text|, used + |text| + 1)) else None
    decreases |text|
  {
    if text != "" {
      assert p[k] == p[k..k + |text|][0];
      var n := if text[0] == '\\' then 2 else 1;
      assert p[k + n..k + |text|] == p[k..k + |text|][n..] == text[n..];
      if used + n <= MaxClassBytes {
        ReadsClass(p, k + n, used + n, text[n..]);
      }
    }
  }

  lemma PartOf(p: string, i: nat, t: string, k: nat)
    requires k < |t| && i + |t| <= |p| && p[i..i + |t|] == t
    ensures p[i + k] == t[k]
  {
    assert p[i..i + |t|][k] == p[i + k];
  }

  lemma SliceOf(p: string, i: nat, t: string, a: nat, b: nat)
    requires a <= b <= |t| && i + |t| <= |p| && p[i..i + |t|] == t
    ensures p[i + a..i + b] == t[a..b]
  {
    forall k | a <= k < b ensures p[i + k] == t[k] {
      PartOf(p, i, t, k);
    }
    var u, v := p[i + a..i + b], t[a..b];
    assert |u| == |v| && forall k :: 0 <= k < |u| ==> u[k] == p[i + (a + k)] == v[k];
  }

  /** A bracketed class is read as it was written. */
  lemma ReadsClassAtom(p: string, i: nat, used: nat, text: string, inverted: bool)
    requires CopiesWhole(text) && used <= MaxClassBytes && (!inverted ==> CharAt(text, 0) != '^')
    requires var t := (if inverted then "[^" else "[") + text + "]"; i + |t| <= |p| && p[i..i + |t|] == t
    ensures i < |p|
    ensures Reads(p, i, used)
            == if used + |text| + 1 <= MaxClassBytes then
                 Read(Some(if inverted then InvCharClass(Scanned(text)) else CharClass(Scanned(text))),
                      i + |text| + (if inverted then 3 else 2), used + |text| + 1)
               else Failed
  {
    hide CopiesWhole, ClassEnd;
    var opening := if inverted then "[^" else "[";
    var t, start := opening + text + "]", i + |opening|;
    PartOf(p, i, t, 0);
    PartOf(p, i, t, 1);
    PartOf(p, i, t, |t| - 1);
    assert t[|opening|..|opening| + |text|] == text;
    SliceOf(p, i, t, |opening|, |opening| + |text|);
    assert t[1] == if inverted then '^' else if text == "" then ']' else text[0];
    ReadsClass(p, start, used, text);
  }

  /** An atom is read as it was written. */
  lemma ReadsAtom(p: string, i: nat, used: nat, atom: Symbol)
    requires atom.IsAtom() && Writable(atom) && used <= MaxClassBytes
    requires var t := AtomText(atom); i + |t| <= |p| && p[i..i + |t|] == t
    ensures i < |p|
    ensures Reads(p, i, used)
            == if used + ClassBytes(atom) <= MaxClassBytes then
                 Read(Some(Raw(atom)), i + |AtomText(atom)|, used + ClassBytes(atom))
               else Failed
  {
    var t := AtomText(atom);
    if atom.CharClass? || atom.InvCharClass? {
      ReadsClassAtom(p, i, used, atom.ccl.Text(), atom.InvCharClass?);
    } else {
      PartOf(p, i, t, 0);
      if |t| == 2 {
        PartOf(p, i, t, 1);
      }
    }
  }

  lemma ReadsMark(p: string, i: nat, used: nat, r: Repeat)
    requires r != Once && i < |p| && p[i..i + 1] == MarkText(r)
    ensures Reads(p, i, used) == Read(Some(MarkSymbol(r)), i + 1, used)
  {
    assert p[i] == p[i..i + 1][0];
  }

  function MarkSymbol(r: Repeat): Symbol
  {
    match r
    case Once => Unused
    case AtMostOnce => QuestionMark
    case AnyNumber => Star
    case AtLeastOnce => Plus
  }

  /** What is compiled of pieces for which `room` symbols are left. */
  ghost function CompiledRoom(pieces: seq<Piece>, atEnd: bool, room: nat): seq<Symbol>
  {
    Compiled(RawPieces(Kept(pieces, room)), EndKept(pieces, atEnd, room))
  }

  lemma CompiledNoRoom(pieces: seq<Piece>, atEnd: bool)
    ensures CompiledRoom(pieces, atEnd, 0) == [Unused]
  {
  }

  lemma CompiledFirst(pieces: seq<Piece>, atEnd: bool, room: nat)
    requires pieces != [] && 0 < room
    ensures var rest, raw := pieces[1..], Raw(pieces[0].atom);
            CompiledRoom(pieces, atEnd, room)
            == if pieces[0].repeat == Once then [raw] + CompiledRoom(rest, atEnd, room - 1)
               else if room == 1 then [raw, Unused]
               else [raw, MarkSymbol(pieces[0].repeat)] + CompiledRoom(rest, atEnd, room - 2)
  {
    var kept := Kept(pieces, room);
    assert RawPieces(kept)[1..] == RawPieces(kept[1..]);
    if pieces[0].repeat == Once {
      assert kept[1..] == Kept(pieces[1..], room - 1);
    } else if room != 1 {
      assert kept[1..] == Kept(pieces[1..], room - 2);
    } else {
      assert kept[1..] == [] && RawPieces([]) == [] && !EndKept(pieces, atEnd, 1);
      assert Compiled(RawPieces(kept), false) == [Raw(pieces[0].atom)] + [Unused];
    }
  }

  lemma BytesFirst(pieces: seq<Piece>, room: nat)
    requires pieces != [] && 0 < room
    ensures AllClassBytes(Kept(pieces, room))
            == ClassBytes(pieces[0].atom)
               + if pieces[0].repeat == Once then AllClassBytes(Kept(pieces[1..], room - 1))
                 else if room == 1 then 0
                 else AllClassBytes(Kept(pieces[1..], room - 2))
  {
    var kept := Kept(pieces, room);
    if pieces[0].repeat == Once {
      assert kept[1..] == Kept(pieces[1..], room - 1);
    } else if room != 1 {
      assert kept[1..] == Kept(pieces[1..], room - 2);
    } else {
      assert kept[1..] == [];
    }
  }

  lemma TextFirst(p: string, i: nat, pieces: seq<Piece>, atEnd: bool) returns (mark: nat, next: nat)
    requires AllWritable(pieces) && pieces != [] && i <= |p| && p[i..] == PiecesText(pieces, atEnd)
    ensures mark == i + |AtomText(pieces[0].atom)| <= |p| && p[i..mark] == AtomText(pieces[0].atom)
    ensures next == mark + |MarkText(pieces[0].repeat)| <= |p| && p[mark..next] == MarkText(pieces[0].repeat)
    ensures p[next..] == PiecesText(pieces[1..], atEnd)
  {
    hide AtomText, MarkText;
    var atom, sign, rest := AtomText(pieces[0].atom), MarkText(pieces[0].repeat), PiecesText(pieces[1..], atEnd);
    mark, next := i + |atom|, i + |atom| + |sign|;
    assert p[i..] == atom + sign + rest;
    assert p[i..mark] == p[i..][..|atom|] == atom;
    assert p[mark..next] == p[i..][|atom|..|atom| + |sign|] == sign;
    assert p[next..] == p[i..][|atom| + |sign|..] == rest;
  }

  lemma SymbolRead(p: string, i: nat, j: nat, used: nat, was: seq<Symbol>, s: Symbol, next: nat, with: nat)
    requires i < |p| && j + 1 < MaxSymbols == |was| && Reads(p, i, used) == Read(Some(s), next, with)
    ensures next <= |p| && CompiledFrom(p, i, j, used, was) == Joined([s], CompiledFrom(p, next, j + 1, with, was))
  {
    hide Reads;
  }

  lemma NoRoomLeft(p: string, i: nat, used: nat, was: seq<Symbol>)
    requires i <= |p| && |was| == MaxSymbols
    ensures CompiledFrom(p, i, MaxSymbols - 1, used, was) == Some([Unused])
  {
  }

  lemma JoinedTwice(a: Symbol, b: Symbol, rest: Option<seq<Symbol>>)
    ensures Joined([a], Joined([b], rest)) == Joined([a, b], rest)
  {
    assert rest.Some? ==> [a] + ([b] + rest.value) == [a, b] + rest.value;
  }

  /** What pieces are compiled into from number `j` on. */
  ghost function Outcome(pieces: seq<Piece>, atEnd: bool, j: nat, used: nat): Option<seq<Symbol>>
    requires j < MaxSymbols
  {
    var room := MaxSymbols - 1 - j;
    if used + AllClassBytes(Kept(pieces, room)) <= MaxClassBytes then Some(CompiledRoom(pieces, atEnd, room)) else None
  }

  lemma OutcomeFirst(pieces: seq<Piece>, atEnd: bool, j: nat, used: nat)
    requires pieces != [] && j + 1 < MaxSymbols
    ensures var rest, raw, r := pieces[1..], Raw(pieces[0].atom), pieces[0].repeat;
            var with := used + ClassBytes(pieces[0].atom);
            Outcome(pieces, atEnd, j, used)
            == if MaxClassBytes < with then None
               else if r == Once then Joined([raw], Outcome(rest, atEnd, j + 1, with))
               else if j + 2 == MaxSymbols then Joined([raw], Some([Unused]))
               else Joined([raw, MarkSymbol(r)], Outcome(rest, atEnd, j + 2, with))
  {
    hide Kept, CompiledRoom, ClassBytes, Raw, MarkSymbol;
    CompiledFirst(pieces, atEnd, MaxSymbols - 1 - j);
    BytesFirst(pieces, MaxSymbols - 1 - j);
    assert [Raw(pieces[0].atom)] + [Unused] == [Raw(pieces[0].atom), Unused];
  }

  /** Pieces that are written out are compiled into their symbols, as long as there is room for symbols and for the
      texts of the classes. */
  lemma {:induction false} CompilesPieces(p: string, i: nat, j: nat, used: nat, was: seq<Symbol>,
                                          pieces: seq<Piece>, atEnd: bool)
    requires AllWritable(pieces) && i <= |p| && p[i..] == PiecesText(pieces, atEnd)
    requires j < MaxSymbols == |was| && used <= MaxClassBytes
    ensures CompiledFrom(p, i, j, used, was) == Outcome(pieces, atEnd, j, used)
    decreases |pieces|
  {
    hide Reads, AtomText, MarkText, CompiledRoom, ClassBytes, Raw, Writable, Outcome, Joined, PiecesText, MarkSymbol;
    if j + 1 == MaxSymbols || pieces == [] {
      EndText(p, i, j, used, was, pieces, atEnd);
      return;
    }
    var mark, next := TextFirst(p, i, pieces, atEnd);
    ReadsAtom(p, i, used, pieces[0].atom);
    OutcomeFirst(pieces, atEnd, j, used);
    var raw, with, r := Raw(pieces[0].atom), used + ClassBytes(pieces[0].atom), pieces[0].repeat;
    if MaxClassBytes < with {
      return;
    }
    SymbolRead(p, i, j, used, was, raw, mark, with);
    if r == Once {
      OnceIsUnmarked();
      CompilesPieces(p, next, j + 1, with, was, pieces[1..], atEnd);
    } else if j + 2 == MaxSymbols {
      NoRoomLeft(p, mark, with, was);
    } else {
      MarkIsOne(r);
      ReadsMark(p, mark, with, r);
      SymbolRead(p, mark, j + 1, with, was, MarkSymbol(r), next, with);
      JoinedTwice(raw, MarkSymbol(r), CompiledFrom(p, next, j + 2, with, was));
      CompilesPieces(p, next, j + 2, with, was, pieces[1..], atEnd);
    }
  }

  lemma OnceIsUnmarked()
    ensures MarkText(Once) == ""
  {
  }

  lemma MarkIsOne(r: Repeat)
    requires r != Once
    ensures |MarkText(r)| == 1
  {
  }

  lemma EndText(p: string, i: nat, j: nat, used: nat, was: seq<Symbol>, pieces: seq<Piece>, atEnd: bool)
    requires ValidPieces(pieces) && i <= |p| && p[i..] == PiecesText(pieces, atEnd) && used <= MaxClassBytes
    requires j < MaxSymbols == |was| && (pieces == [] || j + 1 == MaxSymbols)
    ensures CompiledFrom(p, i, j, used, was) == Outcome(pieces, atEnd, j, used)
  {
    if j + 1 == MaxSymbols {
      CompiledNoRoom(pieces, atEnd);
    } else if atEnd {
      assert p[i] == p[i..][0] == '$' && i + 1 == |p|;
      SymbolRead(p, i, j, used, was, End, i + 1, used);
      assert CompiledFrom(p, i + 1, j + 1, used, was) == Some([Unused]);
      assert RawPieces(Kept(pieces, MaxSymbols - 1 - j)) == [] && [End] + [Unused] == [End, Unused];
    } else {
      assert RawPieces(Kept(pieces, MaxSymbols - 1 - j)) == [];
    }
  }

  /** How many symbols there is room for behind the anchor at the start. */
  function Room(begin: bool): nat
  {
    if begin then 28 else 29
  }

  /** A pattern that is written out is compiled into its symbols: as many as there is room for, unless the texts of
      their classes take more than 39 bytes. */
  lemma CompilesPattern(begin: bool, pieces: seq<Piece>, atEnd: bool, was: seq<Symbol>)
    requires AllWritable(pieces) && |was| == MaxSymbols
    ensures CompiledFrom(PatternText(begin, pieces, atEnd), 0, 0, 1, was)
            == if AllClassBytes(Kept(pieces, Room(begin))) <= 39 then
                 Some((if begin then [Begin] else []) + CompiledRoom(pieces, atEnd, Room(begin)))
               else None
  {
    hide AllClassBytes, CompiledRoom, PiecesText, Writable;
    var p := PatternText(begin, pieces, atEnd);
    if begin {
      assert p == "^" + PiecesText(pieces, atEnd) && p[1..] == PiecesText(pieces, atEnd);
      CompilesPieces(p, 1, 1, 1, was, pieces, atEnd);
    } else {
      assert p == "" + PiecesText(pieces, atEnd) && p[0..] == PiecesText(pieces, atEnd);
      CompilesPieces(p, 0, 0, 1, was, pieces, atEnd);
      assert [] + CompiledRoom(pieces, atEnd, 29) == CompiledRoom(pieces, atEnd, 29);
    }
  }

  // ---------------------------------------------------------------- classes read back

  lemma RawMeansTheSame(p: Symbol, c: char)
    requires p.IsAtom() && c != '\0'
    ensures MatchOne(Raw(p), c) <==> MatchOne(p, c)
  {
    if p.CharClass? || p.InvCharClass? {
      ClassMeaning(c, p.ccl);
    }
  }

  lemma RawFits(p: Piece, w: string)
    requires p.Valid() && '\0' !in w
    ensures Piece(Raw(p.atom), p.repeat).Fits(w) <==> p.Fits(w)
  {
    hide MatchOne, Raw;
    forall i | 0 <= i < |w| ensures MatchOne(Raw(p.atom), w[i]) <==> MatchOne(p.atom, w[i]) {
      RawMeansTheSame(p.atom, w[i]);
    }
  }

  lemma {:induction false} RawLanguage(pieces: seq<Piece>, w: string)
    requires ValidPieces(pieces) && '\0' !in w
    ensures InLanguage(RawPieces(pieces), w) <==> InLanguage(pieces, w)
    decreases |pieces|
  {
    hide Raw;
    if pieces != [] {
      assert RawPieces(pieces)[1..] == RawPieces(pieces[1..]);
      forall k | 0 <= k <= |w|
        ensures RawPieces(pieces)[0].Fits(w[..k]) <==> pieces[0].Fits(w[..k])
        ensures InLanguage(RawPieces(pieces)[1..], w[k..]) <==> InLanguage(pieces[1..], w[k..])
      {
        RawFits(pieces[0], w[..k]);
        RawLanguage(pieces[1..], w[k..]);
      }
    }
  }

  lemma RawAccepts(pieces: seq<Piece>, atEnd: bool, text: string)
    requires ValidPieces(pieces) && '\0' !in text
    ensures Accepts(RawPieces(pieces), atEnd, text) <==> Accepts(pieces, atEnd, text)
  {
    forall n | 0 <= n <= |text| ensures InLanguage(RawPieces(pieces), text[..n]) <==> InLanguage(pieces, text[..n]) {
      RawLanguage(pieces, text[..n]);
    }
  }

  // ---------------------------------------------------------------- re_match

  /** The answer of a search: the least index before the end at which the pattern accepts, or only 0 if it is
      anchored, and -1 if there is none. */
  ghost predicate IsFirstMatch(idx: int, begin: bool, pieces: seq<Piece>, atEnd: bool, text: string)
    requires ValidPieces(pieces)
  {
    if begin then idx == if Accepts(pieces, atEnd, text) then 0 else -1
    else
      && -1 <= idx && (0 <= idx ==> idx < |text| && Accepts(pieces, atEnd, text[idx..]))
      && forall j :: 0 <= j < (if idx == -1 then |text| else idx) ==> !Accepts(pieces, atEnd, text[j..])
  }

  lemma RawFirstMatch(idx: int, begin: bool, pieces: seq<Piece>, atEnd: bool, text: string)
    requires ValidPieces(pieces) && '\0' !in text && IsFirstMatch(idx, begin, RawPieces(pieces), atEnd, text)
    ensures IsFirstMatch(idx, begin, pieces, atEnd, text)
  {
    hide Accepts;
    RawAccepts(pieces, atEnd, text);
    forall j | 0 <= j <= |text|
      ensures Accepts(RawPieces(pieces), atEnd, text[j..]) <==> Accepts(pieces, atEnd, text[j..])
    {
      RawAccepts(pieces, atEnd, text[j..]);
    }
  }

  /** `re_match`: the text of a pattern against a text.  A pattern of more than 29 symbols is cut behind the 29th, and
      one whose classes take too much room matches nothing. */
  method ReMatch(pattern: string, text: string, compiled: array<Symbol>,
                 ghost begin: bool, ghost pieces: seq<Piece>, ghost atEnd: bool)
    returns (idx: int, matchLength: int)
    requires '\0' !in pattern && IsCString(text) && compiled.Length == MaxSymbols
    requires AllWritable(pieces) && pattern == PatternText(begin, pieces, atEnd)
    modifies compiled
    ensures var kept, end := Kept(pieces, Room(begin)), EndKept(pieces, atEnd, Room(begin));
            && (39 < AllClassBytes(kept) ==> idx == -1)
            && (AllClassBytes(kept) <= 39 ==>
                  && IsFirstMatch(idx, begin, kept, end, text)
                  && (0 <= idx && !end && EndsInRun(kept) ==>
                        TakesRun(RawPieces(kept), text[idx..], matchLength)))
  {
    hide *;
    CompilesPattern(begin, pieces, atEnd, compiled[..]);
    ghost var kept, end := Kept(pieces, Room(begin)), EndKept(pieces, atEnd, Room(begin));
    WritableIsValid(pieces);
    RawIsValid(kept);
    var n := ReCompile(pattern, compiled);
    var symbols := if n.None? then None else Some(compiled[..n.value + 1]);
    RoomIsCompiled(pieces, atEnd, begin);
    idx, matchLength := ReMatchp(symbols, text, begin, RawPieces(kept), end);
    if symbols.Some? {
      FirstMatchIs(idx, begin, RawPieces(kept), end, text);
      NoTerminator(text);
      RawFirstMatch(idx, begin, kept, end, text);
      RawEndsInRun(kept);
    }
  }

  lemma WritableIsValid(pieces: seq<Piece>)
    requires AllWritable(pieces)
    ensures ValidPieces(pieces)
  {
  }

  lemma RawIsValid(pieces: seq<Piece>)
    requires ValidPieces(pieces)
    ensures ValidPieces(RawPieces(pieces))
  {
  }

  lemma RawEndsInRun(pieces: seq<Piece>)
    ensures EndsInRun(RawPieces(pieces)) <==> EndsInRun(pieces)
  {
  }

  lemma RoomIsCompiled(pieces: seq<Piece>, atEnd: bool, begin: bool)
    ensures (if begin then [Begin] else []) + CompiledRoom(pieces, atEnd, Room(begin))
            == var s := Compiled(RawPieces(Kept(pieces, Room(begin))), EndKept(pieces, atEnd, Room(begin)));
               if begin then [Begin] + s else s
  {
  }

  lemma FirstMatchIs(idx: int, begin: bool, pieces: seq<Piece>, atEnd: bool, text: string)
    requires ValidPieces(pieces)
    requires begin ==> idx == if Accepts(pieces, atEnd, text) then 0 else -1
    requires !begin ==> -1 <= idx < |text| || idx == -1
    requires !begin && 0 <= idx ==>
              Accepts(pieces, atEnd, text[idx..]) && forall j :: 0 <= j < idx ==> !Accepts(pieces, atEnd, text[j..])
    requires !begin && idx == -1 ==> forall j :: 0 <= j < |text| ==> !Accepts(pieces, atEnd, text[j..])
    ensures IsFirstMatch(idx, begin, pieces, atEnd, text)
  {
  }
}
