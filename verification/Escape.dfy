/** Escaping of string literals. */
module Escape {
  import opened Lists

  const BACKSPACE := '\U{8}'
  const VTAB := '\U{B}'

  /** A flag is an 8-bit set: bit 0 for single quotes, bit 1 for double quotes, either of them for LIKE. */
  predicate Single(flag: nat) {
    flag % 2 == 1
  }

  predicate Double(flag: nat) {
    flag / 2 % 2 == 1
  }

  predicate Like(flag: nat) {
    Single(flag) || Double(flag)
  }

  /** The three flags: 1 escapes single quotes, 2 double quotes, and 3 both; each of them keeps wildcards. */
  lemma {:induction false} Flags(flag: nat)
    ensures flag < 4 ==> (Single(flag) <==> flag == 1 || flag == 3)
    ensures Double(flag) <==> flag % 4 >= 2
    ensures flag < 4 ==> (Like(flag) <==> flag != 0)
  {
  }

  predicate Wildcard(c: char) {
    c == '%' || c == '_'
  }

  /** A backslash before a wildcard, which is kept for LIKE. */
  predicate Kept(s: string, flag: nat)
    requires s != []
  {
    s[0] == '\\' && Like(flag) && |s| > 1 && Wildcard(s[1])
  }

  /** What is written for the first character. */
  function Piece(s: string, flag: nat): string
    requires s != []
  {
    match s[0]
    case '\n' => "\\n"
    case '\U{8}' => "\\b"
    case '\t' => "\\t"
    case '\r' => "\\r"
    case '\\' => if Kept(s, flag) then "\\" else "\\\\"
    case '\'' => if Single(flag) then "\\'" else "'"
    case '"' => if Double(flag) then "\\\"" else "\""
    case c => [c]
  }

  function Escaped(s: string, flag: nat): string {
    if s == [] then "" else Piece(s, flag) + Escaped(s[1..], flag)
  }

  method WriteEscape(builder: string, input: string, flag: nat) returns (sb: string)
    ensures sb == builder + Escaped(input, flag)
  {
    sb := builder;
    var rest := input;
    while |rest| > 0
      invariant sb + Escaped(rest, flag) == builder + Escaped(input, flag)
      decreases |rest|
    {
      assert sb + Escaped(rest, flag) == sb + Piece(rest, flag) + Escaped(rest[1..], flag);
      match rest[0] {
        case '\n' => sb := sb + "\\n";
        case '\U{8}' => sb := sb + "\\b";
        case '\t' => sb := sb + "\\t";
        case '\r' => sb := sb + "\\r";
        case '\\' =>
          var isLikeEscape := false;
          if Like(flag) {
            isLikeEscape := |rest| > 1 && Wildcard(rest[1]);
          }
          sb := sb + if isLikeEscape then "\\" else "\\\\";
        case '\'' => sb := sb + if Single(flag) then "\\'" else "'";
        case '"' => sb := sb + if Double(flag) then "\\\"" else "\"";
        case c => sb := sb + [c];
      }
      rest := rest[1..];
    }
    assert sb + "" == sb;
  }

  // ----- unescaping -----

  /** What a character after a backslash stands for; an ignored one keeps its backslash. */
  function Meaning(c: char, ignores: set<char>): string {
    match c
    case 'b' => [BACKSPACE]
    case 'n' => "\n"
    case 't' => "\t"
    case 'r' => "\r"
    case 'v' => [VTAB]
    case '"' => "\""
    case '\'' => "'"
    case _ => if c in ignores then ['\\', c] else [c]
  }

  function Meanings(ignores: set<char>): char -> string {
    c => Meaning(c, ignores)
  }

  /** Reads a string with `mean` for characters after a backslash, which toggles `escape`. */
  function Read(mean: char -> string, s: string, escape: bool): string {
    if s == [] then ""
    else if s[0] == '\\' then (if escape then "\\" else "") + Read(mean, s[1..], !escape)
    else (if escape then mean(s[0]) else [s[0]]) + Read(mean, s[1..], false)
  }

  function Unescaped(s: string, ignores: set<char>): string {
    Read(Meanings(ignores), s, false)
  }

  lemma {:induction false} PlainText(mean: char -> string, s: string)
    requires '\\' !in s
    ensures Read(mean, s, false) == s
  {
    if s != [] {
      PlainText(mean, s[1..]);
      assert s == [s[0]] + s[1..];
    }
  }

  method Scan(mean: char -> string, s: string) returns (r: string)
    ensures r == Read(mean, s, false)
  {
    r := "";
    var escape, i := false, 0;
    assert s[0..] == s;
    while i < |s|
      invariant 0 <= i <= |s|
      invariant r + Read(mean, s[i..], escape) == Read(mean, s, false)
    {
      assert s[i..][1..] == s[i + 1..];
      if s[i] == '\\' {
        Associative(r, if escape then "\\" else "", Read(mean, s[i + 1..], !escape));
        assert !escape ==> r + "" == r;
        if escape { r := r + "\\"; }
        escape := !escape;
      } else {
        Associative(r, if escape then mean(s[i]) else [s[i]], Read(mean, s[i + 1..], false));
        r := r + if escape then mean(s[i]) else [s[i]];
        escape := false;
      }
      i := i + 1;
    }
    assert r + "" == r;
  }

  method Unescape(s: string, ignores: set<char>) returns (r: string)
    ensures r == Unescaped(s, ignores)
  {
    if '\\' !in s {
      PlainText(Meanings(ignores), s);
      return s;
    }
    r := Scan(Meanings(ignores), s);
  }

  // ----- round trip -----

  /** A kept backslash whose wildcard is not ignored. */
  predicate Lost(s: string, flag: nat, ignores: set<char>)
    requires s != []
  {
    Kept(s, flag) && s[1] !in ignores
  }

  /** The string without the backslashes that unescaping drops. */
  function Dropped(s: string, flag: nat, ignores: set<char>): (r: string)
    ensures |r| <= |s|
  {
    if s == [] then ""
    else (if Lost(s, flag, ignores) then "" else [s[0]]) + Dropped(s[1..], flag, ignores)
  }

  lemma {:induction false} OneRead(mean: char -> string, c: char, rest: string)
    requires c != '\\'
    ensures Read(mean, [c] + rest, false) == [c] + Read(mean, rest, false)
  {
    assert ([c] + rest)[1..] == rest;
  }

  lemma {:induction false} PairRead(mean: char -> string, d: char, rest: string)
    ensures Read(mean, ['\\', d] + rest, false) == (if d == '\\' then "\\" else mean(d)) + Read(mean, rest, false)
  {
    var s := ['\\', d] + rest;
    assert s[1..] == [d] + rest;
    assert ([d] + rest)[1..] == rest;
    assert "" + Read(mean, s[1..], true) == Read(mean, s[1..], true);
  }

  /** A character that is not a kept backslash comes back from what was written for it. */
  lemma {:induction false} PieceRead(s: string, flag: nat, rest: string, ignores: set<char>)
    requires s != [] && !Kept(s, flag)
    ensures Unescaped(Piece(s, flag) + rest, ignores) == [s[0]] + Unescaped(rest, ignores)
  {
    var p := Piece(s, flag);
    if |p| == 1 {
      OneRead(Meanings(ignores), s[0], rest);
    } else {
      assert p == ['\\', p[1]];
      PairRead(Meanings(ignores), p[1], rest);
    }
  }

  lemma {:induction false} KeptRead(s: string, flag: nat, rest: string, ignores: set<char>)
    requires s != [] && Kept(s, flag)
    ensures Unescaped(Piece(s, flag) + (Piece(s[1..], flag) + rest), ignores) ==
            (if s[1] in ignores then ['\\', s[1]] else [s[1]]) + Unescaped(rest, ignores)
  {
    assert Piece(s, flag) + (Piece(s[1..], flag) + rest) == ['\\', s[1]] + rest;
    PairRead(Meanings(ignores), s[1], rest);
  }

  /** Unescaping undoes escaping up to backslashes kept for LIKE before a wildcard that is not ignored. */
  lemma {:induction false} UnescapedBack(s: string, flag: nat, ignores: set<char>)
    ensures Unescaped(Escaped(s, flag), ignores) == Dropped(s, flag, ignores)
  {
    if s == [] {
    } else if Kept(s, flag) {
      var rest := s[1..][1..];
      UnescapedBack(rest, flag, ignores);
      KeptRead(s, flag, Escaped(rest, flag), ignores);
      DroppedPair(s, flag, ignores);
    } else {
      UnescapedBack(s[1..], flag, ignores);
      PieceRead(s, flag, Escaped(s[1..], flag), ignores);
    }
  }

  lemma {:induction false} DroppedPair(s: string, flag: nat, ignores: set<char>)
    requires s != [] && Kept(s, flag)
    ensures Dropped(s, flag, ignores) ==
            (if s[1] in ignores then ['\\', s[1]] else [s[1]]) + Dropped(s[1..][1..], flag, ignores)
  {
    var t := s[1..];
    assert Dropped(t, flag, ignores) == [t[0]] + Dropped(t[1..], flag, ignores);
  }

  /** Some backslash of the string is lost. */
  predicate Loses(s: string, flag: nat, ignores: set<char>) {
    s != [] && (Lost(s, flag, ignores) || Loses(s[1..], flag, ignores))
  }

  lemma {:induction false} DroppedLoses(s: string, flag: nat, ignores: set<char>)
    ensures |Dropped(s, flag, ignores)| == |s| <==> !Loses(s, flag, ignores)
    ensures !Loses(s, flag, ignores) ==> Dropped(s, flag, ignores) == s
  {
    if s != [] {
      DroppedLoses(s[1..], flag, ignores);
    }
  }

  lemma {:induction false} NothingLost(s: string, flag: nat, ignores: set<char>)
    requires ('%' in ignores && '_' in ignores) || !Like(flag)
    ensures !Loses(s, flag, ignores)
  {
    if s != [] {
      NothingLost(s[1..], flag, ignores);
    }
  }

  /** Escaping is undone exactly when no backslash stands before a wildcard that LIKE keeps and unescaping does not. */
  lemma {:induction false} RoundTrip(s: string, flag: nat, ignores: set<char>)
    ensures Unescaped(Escaped(s, flag), ignores) == s <==> !Loses(s, flag, ignores)
  {
    UnescapedBack(s, flag, ignores);
    DroppedLoses(s, flag, ignores);
  }

  /** With both wildcards ignored, or without LIKE, it is always undone. */
  lemma {:induction false} AlwaysUndone(s: string, flag: nat, ignores: set<char>)
    requires ('%' in ignores && '_' in ignores) || !Like(flag)
    ensures Unescaped(Escaped(s, flag), ignores) == s
  {
    NothingLost(s, flag, ignores);
    RoundTrip(s, flag, ignores);
  }

  // ----- what escaping is for -----

  /** Whether a quote occurs that no backslash escapes, which would end the literal. */
  predicate Closes(quote: char, s: string, escape: bool) {
    && s != []
    && if s[0] == '\\' then Closes(quote, s[1..], !escape)
       else (s[0] == quote && !escape) || Closes(quote, s[1..], false)
  }

  /** Whether the text leaves a backslash that would escape what follows it. */
  predicate Dangles(s: string, escape: bool) {
    if s == [] then escape else Dangles(s[1..], s[0] == '\\' && !escape)
  }

  predicate Escapes(flag: nat, quote: char) {
    (quote == '\'' && Single(flag)) || (quote == '"' && Double(flag))
  }

  predicate Control(c: char) {
    c == '\n' || c == BACKSPACE || c == '\t' || c == '\r'
  }

  lemma {:induction false} OneSafe(quote: char, c: char, rest: string)
    requires c != '\\' && c != quote
    ensures Closes(quote, [c] + rest, false) == Closes(quote, rest, false)
    ensures Dangles([c] + rest, false) == Dangles(rest, false)
  {
    assert ([c] + rest)[1..] == rest;
  }

  lemma {:induction false} PairSafe(quote: char, d: char, rest: string)
    ensures Closes(quote, ['\\', d] + rest, false) == Closes(quote, rest, false)
    ensures Dangles(['\\', d] + rest, false) == Dangles(rest, false)
  {
    var s := ['\\', d] + rest;
    assert s[1..] == [d] + rest;
    assert ([d] + rest)[1..] == rest;
  }

  /** Escaped text between quotes neither ends the literal early nor escapes its closing quote. */
  lemma {:induction false} StaysInside(s: string, flag: nat, quote: char)
    requires Escapes(flag, quote)
    ensures !Closes(quote, Escaped(s, flag), false) && !Dangles(Escaped(s, flag), false)
  {
    if s == [] {
    } else if Kept(s, flag) {
      var rest := s[1..][1..];
      StaysInside(rest, flag, quote);
      assert Escaped(s, flag) == ['\\', s[1]] + Escaped(rest, flag);
      PairSafe(quote, s[1], Escaped(rest, flag));
    } else {
      StaysInside(s[1..], flag, quote);
      var p := Piece(s, flag);
      if |p| == 1 {
        OneSafe(quote, p[0], Escaped(s[1..], flag));
      } else {
        assert p == ['\\', p[1]];
        PairSafe(quote, p[1], Escaped(s[1..], flag));
      }
    }
  }

  /** No line break, tab or backspace is left as it is. */
  lemma {:induction false} NoControls(s: string, flag: nat)
    ensures forall c | c in Escaped(s, flag) :: !Control(c)
  {
    if s != [] {
      NoControls(s[1..], flag);
      assert forall c | c in Piece(s, flag) :: !Control(c);
    }
  }

  /** How each character is written, whatever follows. */
  lemma {:induction false} OneEscaped(c: char, rest: string, flag: nat)
    requires flag < 4
    ensures Escaped([c] + rest, flag) ==
            (if c == '\n' then ['\\', 'n'] else if c == '\t' then ['\\', 't'] else if c == '\r' then ['\\', 'r']
             else if c == BACKSPACE then ['\\', 'b']
             else if c == '\'' && (flag == 1 || flag == 3) then ['\\', '\'']
             else if c == '"' && (flag == 2 || flag == 3) then ['\\', '"']
             else if c == '\\' && !(flag != 0 && rest != [] && (rest[0] == '%' || rest[0] == '_')) then ['\\', '\\']
             else [c]) + Escaped(rest, flag)
  {
    Flags(flag);
    assert ([c] + rest)[1..] == rest;
  }

  /** What a character after a backslash is read as, whatever follows. */
  lemma {:induction false} OneUnescaped(c: char, rest: string, ignores: set<char>)
    ensures Unescaped(['\\', c] + rest, ignores) ==
            (if c == 'n' then ['\n'] else if c == 't' then ['\t'] else if c == 'r' then ['\r'] else if c == 'b' then [BACKSPACE]
             else if c == 'v' then [VTAB]
             else if c in ignores && c !in {'\\', '"', '\''} then ['\\', c]
             else [c]) + Unescaped(rest, ignores)
  {
    PairRead(Meanings(ignores), c, rest);
  }
}
