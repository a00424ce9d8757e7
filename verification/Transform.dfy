/** Coloured console text: rendering it with escape sequences, and stripping them again. */
module Transform {
  import opened Sequences

  const ESC := 27 as char

  // ---- Stripping, as the five pattern substitutions do it

  predicate IsDigit(c: char) {
    '0' <= c <= '9'
  }

  /** What is left behind the longest run of digits. */
  function DropDigits(s: string): (r: string)
    ensures |r| <= |s|
  {
    if s == "" || !IsDigit(s[0]) then s else DropDigits(s[1..])
  }

  datatype Match = NoMatch | Rest(text: string)

  /** `%d+;%d+;...;%d+m` with k numbers: what follows the match. Backing off a greedy run of digits cannot
      help, since no digit is a semicolon or an m. */
  function MatchNumbers(s: string, k: nat): (m: Match)
    ensures m.Rest? ==> |m.text| < |s|
    decreases k
  {
    var r := DropDigits(s);
    if k == 0 || r == "" || |r| == |s| then NoMatch
    else if k == 1 then (if r[0] == 'm' then Rest(r[1..]) else NoMatch)
    else if r[0] == ';' then MatchNumbers(r[1..], k - 1)
    else NoMatch
  }

  function MatchSequence(s: string, k: nat): (m: Match)
    ensures m.Rest? ==> |m.text| < |s|
  {
    if |s| >= 2 && s[0] == ESC && s[1] == '[' then MatchNumbers(s[2..], k) else NoMatch
  }

  /** `gsub` with an empty replacement. */
  function Remove(s: string, k: nat): (r: string)
    decreases |s|
  {
    if s == "" then ""
    else match MatchSequence(s, k)
      case Rest(text) => Remove(text, k)
      case NoMatch => [s[0]] + Remove(s[1..], k)
  }

  function Strip(text: string): (r: string) {
    Remove(Remove(Remove(Remove(Remove(text, 5), 4), 3), 2), 1)
  }

  // ---- Rendering

  datatype Color =
    | Bold | Underline | Blink | Reverse
    | Black | Red | Green | Yellow | Blue | Magenta | Cyan | White
    | Gray | BrightRed | BrightGreen | BrightYellow | BrightBlue | BrightMagenta | BrightCyan | BrightWhite
    | BlackBackground | RedBackground | GreenBackground | YellowBackground
    | BlueBackground | MagentaBackground | CyanBackground | WhiteBackground
    | BrightRedBackground | BrightGreenBackground | BrightYellowBackground | BrightBlueBackground
    | BrightMagentaBackground | BrightCyanBackground | BrightWhiteBackground

  function ColorCode(c: Color): (r: string) {
    match c
    case Bold => "1m"
    case Underline => "4m"
    case Blink => "5m"
    case Reverse => "7m"
    case Black => "0;30m"
    case Red => "0;31m"
    case Green => "0;32m"
    case Yellow => "0;33m"
    case Blue => "0;34m"
    case Magenta => "0;35m"
    case Cyan => "0;36m"
    case White => "0;37m"
    case Gray => "1;30m"
    case BrightRed => "1;31m"
    case BrightGreen => "1;32m"
    case BrightYellow => "1;33m"
    case BrightBlue => "1;34m"
    case BrightMagenta => "1;35m"
    case BrightCyan => "1;36m"
    case BrightWhite => "1;37m"
    case BlackBackground => "40m"
    case RedBackground => "41m"
    case GreenBackground => "42m"
    case YellowBackground => "43m"
    case BlueBackground => "44m"
    case MagentaBackground => "45m"
    case CyanBackground => "46m"
    case WhiteBackground => "47m"
    case BrightRedBackground => "101m"
    case BrightGreenBackground => "102m"
    case BrightYellowBackground => "103m"
    case BrightBlueBackground => "104m"
    case BrightMagentaBackground => "105m"
    case BrightCyanBackground => "106m"
    case BrightWhiteBackground => "107m"
  }

  function TransformText(text: string, color: Color, enabled: bool): (r: string) {
    if !enabled then text else [ESC, '['] + ColorCode(color) + text + ([ESC, '['] + "0;0m")
  }

  /** Text built by any nesting and concatenation of colour transforms. */
  datatype Doc = Text(s: string) | Styled(color: Color, doc: Doc) | Concat(left: Doc, right: Doc)

  function Render(d: Doc, enabled: bool): (r: string) {
    match d
    case Text(s) => s
    case Styled(color, doc) => TransformText(Render(doc, enabled), color, enabled)
    case Concat(left, right) => Render(left, enabled) + Render(right, enabled)
  }

  function PlainText(d: Doc): (r: string) {
    match d
    case Text(s) => s
    case Styled(_, doc) => PlainText(doc)
    case Concat(left, right) => PlainText(left) + PlainText(right)
  }

  ghost predicate NoEscape(s: string) {
    forall i :: 0 <= i < |s| ==> s[i] != ESC
  }

  // ---- Escape sequences as tokens

  datatype Token = Plain(s: string) | Sequence(numbers: seq<string>)

  ghost predicate IsNumber(s: string) {
    s != "" && forall i :: 0 <= i < |s| ==> IsDigit(s[i])
  }

  /** The numbers with semicolons between them, then an m. */
  ghost function CodeText(numbers: seq<string>): (r: string) {
    if numbers == [] then "m"
    else if |numbers| == 1 then numbers[0] + "m"
    else numbers[0] + ";" + CodeText(numbers[1..])
  }

  /** Any text, or a sequence of one to k numbers. */
  ghost predicate IsToken(t: Token, k: nat) {
    match t
    case Plain(_) => true
    case Sequence(numbers) => 1 <= |numbers| <= k && forall i :: 0 <= i < |numbers| ==> IsNumber(numbers[i])
  }

  ghost predicate AreTokens(ts: seq<Token>, k: nat) {
    forall i :: 0 <= i < |ts| ==> IsToken(ts[i], k)
  }

  ghost function TokenText(t: Token): (r: string) {
    match t
    case Plain(s) => s
    case Sequence(numbers) => [ESC, '['] + CodeText(numbers)
  }

  ghost function TokensText(ts: seq<Token>): (r: string) {
    if ts == [] then "" else TokenText(ts[0]) + TokensText(ts[1..])
  }

  /** The tokens without the sequences of k numbers. */
  ghost function Without(ts: seq<Token>, k: nat): (r: seq<Token>)
    ensures |r| <= |ts|
  {
    if ts == [] then []
    else if ts[0].Sequence? && |ts[0].numbers| == k then Without(ts[1..], k)
    else [ts[0]] + Without(ts[1..], k)
  }

  lemma {:induction false} DropNumber(number: string, rest: string)
    requires IsNumber(number) && rest != "" && !IsDigit(rest[0])
    ensures DropDigits(number + rest) == rest
    decreases |number|
  {
    assert (number + rest)[1..] == number[1..] + rest;
    if |number| > 1 {
      DropNumber(number[1..], rest);
    } else {
      assert number[1..] + rest == rest;
    }
  }

  /** A code is matched by the pattern for its number of numbers, and by no other. */
  lemma {:induction false} MatchCode(numbers: seq<string>, rest: string, k: nat)
    requires numbers != [] && forall i :: 0 <= i < |numbers| ==> IsNumber(numbers[i])
    ensures MatchNumbers(CodeText(numbers) + rest, k) == if k == |numbers| then Rest(rest) else NoMatch
    decreases |numbers|
  {
    assert IsNumber(numbers[0]);
    if |numbers| == 1 {
      Assoc(numbers[0], "m", rest);
      DropNumber(numbers[0], "m" + rest);
      assert ("m" + rest)[1..] == rest;
    } else {
      var more := CodeText(numbers[1..]) + rest;
      Assoc(numbers[0] + ";", CodeText(numbers[1..]), rest);
      Assoc(numbers[0], ";", more);
      DropNumber(numbers[0], ";" + more);
      assert (";" + more)[1..] == more;
      if k > 0 { MatchCode(numbers[1..], rest, k - 1); }
    }
  }

  lemma {:induction false} RemoveSkips(s: string, rest: string, k: nat)
    requires NoEscape(s)
    ensures Remove(s + rest, k) == s + Remove(rest, k)
    decreases |s|
  {
    if s == "" {
      assert s + rest == rest;
    } else {
      assert (s + rest)[1..] == s[1..] + rest;
      RemoveSkips(s[1..], rest, k);
      assert [s[0]] + (s[1..] + Remove(rest, k)) == s + Remove(rest, k);
    }
  }

  lemma {:induction false} CodeHasNoEscape(numbers: seq<string>)
    requires forall i :: 0 <= i < |numbers| ==> IsNumber(numbers[i])
    ensures NoEscape(CodeText(numbers))
  {
    if |numbers| > 1 {
      CodeHasNoEscape(numbers[1..]);
    }
  }

  lemma {:induction false} Unmatched(code: string, rest: string, k: nat)
    requires NoEscape(code) && MatchSequence([ESC, '['] + code + rest, k) == NoMatch
    ensures Remove([ESC, '['] + code + rest, k) == [ESC, '['] + code + Remove(rest, k)
  {
    hide MatchSequence;
    var s, tail := [ESC, '['] + code + rest, "[" + code;
    assert s[1..] == tail + rest;
    RemoveSkips(tail, rest, k);
    var r := Remove(rest, k);
    assert [ESC] + (tail + r) == [ESC, '['] + code + r;
  }

  lemma {:induction false} RemoveSequence(code: string, numbers: seq<string>, rest: string, k: nat)
    requires numbers != [] && (forall i :: 0 <= i < |numbers| ==> IsNumber(numbers[i])) && code == CodeText(numbers)
    ensures Remove([ESC, '['] + code + rest, k)
         == if |numbers| == k then Remove(rest, k) else [ESC, '['] + code + Remove(rest, k)
  {
    hide CodeText, MatchNumbers, IsNumber;
    var s := [ESC, '['] + code + rest;
    assert s[2..] == code + rest;
    MatchCode(numbers, rest, k);
    if |numbers| != k {
      CodeHasNoEscape(numbers);
      Unmatched(code, rest, k);
    }
  }

  ghost function OnlyText(ts: seq<Token>): (r: string) {
    if ts == [] then "" else (if ts[0].Plain? then ts[0].s else "") + OnlyText(ts[1..])
  }

  // ---- Sequences and the text around them

  ghost predicate AreNumbers(numbers: seq<string>) {
    forall i :: 0 <= i < |numbers| ==> IsNumber(numbers[i])
  }

  /** The text is a sequence of k numbers, then `rest`. */
  ghost predicate IsSequenceThen(s: string, k: nat, rest: string) {
    exists numbers :: |numbers| == k >= 1 && AreNumbers(numbers) && s == [ESC, '['] + CodeText(numbers) + rest
  }

  /** There is a sequence of k numbers somewhere in the text. */
  ghost predicate HasSequence(s: string, k: nat) {
    exists i, rest :: 0 <= i < |s| && IsSequenceThen(s[i..], k, rest)
  }

  lemma {:induction false} DigitsInFront(s: string) returns (number: string)
    ensures s == number + DropDigits(s) && forall i :: 0 <= i < |number| ==> IsDigit(number[i])
    ensures DropDigits(s) == "" || !IsDigit(DropDigits(s)[0])
    decreases |s|
  {
    number := "";
    if s != "" && IsDigit(s[0]) {
      var more := DigitsInFront(s[1..]);
      number := [s[0]] + more;
      Assoc([s[0]], more, DropDigits(s));
      assert s == [s[0]] + s[1..];
    }
  }

  /** What the pattern matches is numbers with semicolons between them, then an m. */
  lemma {:induction false} MatchedNumbers(s: string, k: nat) returns (numbers: seq<string>)
    requires MatchNumbers(s, k).Rest?
    ensures |numbers| == k >= 1 && AreNumbers(numbers) && s == CodeText(numbers) + MatchNumbers(s, k).text
    decreases k
  {
    var r, rest := DropDigits(s), MatchNumbers(s, k).text;
    var number := DigitsInFront(s);
    assert r == [r[0]] + r[1..];
    if k == 1 {
      numbers := [number];
      Assoc(number, "m", rest);
    } else {
      var more := MatchedNumbers(r[1..], k - 1);
      numbers := [number] + more;
      assert numbers[1..] == more;
      Assoc(number + ";", CodeText(more), rest);
      Assoc(number, ";", CodeText(more) + rest);
    }
  }

  /** The pattern with k numbers matches exactly where there is a sequence of k numbers, and takes all of it. */
  lemma {:induction false} MatchIsSequence(s: string, k: nat, rest: string)
    ensures MatchSequence(s, k) == Rest(rest) <==> IsSequenceThen(s, k, rest)
  {
    if MatchSequence(s, k) == Rest(rest) {
      var numbers := MatchedNumbers(s[2..], k);
      assert s == [ESC, '['] + s[2..];
      Assoc([ESC, '['], CodeText(numbers), rest);
    }
    if IsSequenceThen(s, k, rest) {
      var numbers :| |numbers| == k >= 1 && AreNumbers(numbers) && s == [ESC, '['] + CodeText(numbers) + rest;
      MatchCode(numbers, rest, k);
      assert s[2..] == CodeText(numbers) + rest;
    }
  }

  /** So there is a sequence in the text exactly if the pattern matches somewhere in it. */
  lemma {:induction false} HasSequenceIfMatched(s: string, k: nat)
    ensures HasSequence(s, k) <==> exists i :: 0 <= i < |s| && MatchSequence(s[i..], k).Rest?
  {
    hide MatchSequence, IsSequenceThen;
    if i, rest :| 0 <= i < |s| && IsSequenceThen(s[i..], k, rest) {
      MatchIsSequence(s[i..], k, rest);
    }
    if i :| 0 <= i < |s| && MatchSequence(s[i..], k).Rest? {
      MatchIsSequence(s[i..], k, MatchSequence(s[i..], k).text);
    }
  }

  /** There is no sequence of one to five numbers anywhere in the text. */
  ghost predicate Free(s: string) {
    forall k :: 1 <= k <= 5 ==> !HasSequence(s, k)
  }

  /** Where a sequence or the end of the text follows. */
  ghost predicate StartsAfresh(s: string) {
    s == "" || s[0] == ESC
  }

  lemma {:induction false} DropDigitsAppend(s: string, rest: string)
    ensures DropDigits(s) != "" ==> DropDigits(s + rest) == DropDigits(s) + rest
    ensures DropDigits(s) == "" ==> DropDigits(s + rest) == DropDigits(rest)
    decreases |s|
  {
    if s == "" {
      assert s + rest == rest;
    } else {
      assert (s + rest)[1..] == s[1..] + rest;
      DropDigitsAppend(s[1..], rest);
    }
  }

  /** A match never runs into an ESC, and what follows a match does not matter. */
  lemma {:induction false} MatchStaysInside(s: string, rest: string, other: string, k: nat)
    requires StartsAfresh(rest) && MatchNumbers(s + rest, k).Rest?
    ensures MatchNumbers(s + other, k).Rest?
    decreases k
  {
    var r := DropDigits(s);
    DropDigitsAppend(s, rest);
    DropDigitsAppend(s, other);
    if r != "" && k > 1 {
      assert (r + rest)[1..] == r[1..] + rest && (r + other)[1..] == r[1..] + other;
      MatchStaysInside(r[1..], rest, other, k - 1);
    }
  }

  /** So a match that starts in a text before an ESC is there whatever follows the text. */
  lemma {:induction false} SequenceStaysInside(s: string, rest: string, other: string, k: nat)
    requires s != "" && StartsAfresh(rest) && MatchSequence(s + rest, k).Rest?
    ensures MatchSequence(s + other, k).Rest?
  {
    assert |s| >= 2;
    assert (s + rest)[2..] == s[2..] + rest && (s + other)[2..] == s[2..] + other;
    MatchStaysInside(s[2..], rest, other, k);
  }

  /** The text before the first sequence. */
  ghost function Lead(ts: seq<Token>): (r: string) {
    if ts == [] || ts[0].Sequence? then "" else ts[0].s + Lead(ts[1..])
  }

  /** Behind it comes nothing or an ESC in the rendered text, and the other texts in the plain one. */
  lemma {:induction false} SplitAtLead(ts: seq<Token>) returns (rest: string, other: string)
    ensures TokensText(ts) == Lead(ts) + rest && OnlyText(ts) == Lead(ts) + other && StartsAfresh(rest)
    decreases |ts|
  {
    if ts == [] {
      rest, other := "", "";
    } else if ts[0].Sequence? {
      rest, other := TokensText(ts), OnlyText(ts);
    } else {
      rest, other := SplitAtLead(ts[1..]);
      Assoc(ts[0].s, Lead(ts[1..]), rest);
      Assoc(ts[0].s, Lead(ts[1..]), other);
    }
  }

  /** No pattern matches in the text from a plain piece on if it does not match without the sequences. */
  lemma {:induction false} NoMatchInPlain(ts: seq<Token>, k: nat)
    requires ts != [] && ts[0].Plain? && ts[0].s != "" && MatchSequence(OnlyText(ts), k) == NoMatch
    ensures MatchSequence(TokensText(ts), k) == NoMatch
  {
    hide MatchSequence, TokensText, OnlyText;
    var rest, other := SplitAtLead(ts);
    if MatchSequence(TokensText(ts), k).Rest? {
      SequenceStaysInside(Lead(ts), rest, other, k);
    }
  }

  lemma {:induction false} NothingToMatch(k: nat)
    ensures !HasSequence("", k)
  {
  }

  lemma {:induction false} SequenceHereOrLater(s: string, k: nat)
    requires s != ""
    ensures HasSequence(s, k) <==> MatchSequence(s, k).Rest? || HasSequence(s[1..], k)
  {
    hide MatchSequence, HasSequence;
    HasSequenceIfMatched(s, k);
    HasSequenceIfMatched(s[1..], k);
    assert s[0..] == s;
    assert forall i :: 0 < i < |s| ==> s[i..] == s[1..][i - 1..];
    if i :| 0 <= i < |s[1..]| && MatchSequence(s[1..][i..], k).Rest? {
      assert s[1..][i..] == s[i + 1..];
    }
  }

  /** Taking the first character off a plain piece. */
  lemma {:induction false} ShorterPlain(s: string, ts: seq<Token>, k: nat)
    requires s != ""
    ensures var whole, tail := [Plain(s)] + ts, [Plain(s[1..])] + ts;
            && TokensText(whole) == [s[0]] + TokensText(tail) && OnlyText(whole) == [s[0]] + OnlyText(tail)
            && TokensText(Without(whole, k)) == [s[0]] + TokensText(Without(tail, k))
            && OnlyText(Without(whole, k)) == [s[0]] + OnlyText(Without(tail, k))
  {
    var whole, tail, rest := [Plain(s)] + ts, [Plain(s[1..])] + ts, Without(ts, k);
    assert whole[1..] == ts && tail[1..] == ts;
    assert s == [s[0]] + s[1..];
    assert ([Plain(s)] + rest)[1..] == rest && ([Plain(s[1..])] + rest)[1..] == rest;
    Assoc([s[0]], s[1..], TokensText(ts));
    Assoc([s[0]], s[1..], OnlyText(ts));
    Assoc([s[0]], s[1..], TokensText(rest));
    Assoc([s[0]], s[1..], OnlyText(rest));
  }

  lemma {:induction false} WithoutAreTokens(ts: seq<Token>, k: nat)
    requires AreTokens(ts, k) && k > 0
    ensures AreTokens(Without(ts, k), k - 1) && OnlyText(Without(ts, k)) == OnlyText(ts)
    decreases |ts|
  {
    if ts != [] {
      WithoutAreTokens(ts[1..], k);
      var rest := Without(ts[1..], k);
      assert ([ts[0]] + rest)[1..] == rest;
    }
  }

  /** How much is left to go through: tokens, and characters of the first one. */
  ghost function FirstLength(ts: seq<Token>): (n: nat) {
    if ts == [] || ts[0].Sequence? then 0 else |ts[0].s|
  }

  /** A pass removes exactly the sequences with its number of numbers, if its pattern does not match in the
      text without the sequences. */
  lemma {:induction false} RemovePass(ts: seq<Token>, k: nat, max: nat)
    requires AreTokens(ts, max) && !HasSequence(OnlyText(ts), k)
    ensures Remove(TokensText(ts), k) == TokensText(Without(ts, k))
    decreases |ts|, FirstLength(ts)
  {
    hide MatchSequence, HasSequence;
    if ts == [] {
    } else if ts[0].Sequence? {
      assert OnlyText(ts) == OnlyText(ts[1..]);
      RemovePass(ts[1..], k, max);
      RemoveSequence(CodeText(ts[0].numbers), ts[0].numbers, TokensText(ts[1..]), k);
      assert ([ts[0]] + Without(ts[1..], k))[1..] == Without(ts[1..], k);
    } else if ts[0].s == "" {
      assert OnlyText(ts) == OnlyText(ts[1..]) && TokensText(ts) == TokensText(ts[1..]);
      RemovePass(ts[1..], k, max);
      assert ([ts[0]] + Without(ts[1..], k))[1..] == Without(ts[1..], k);
    } else {
      RemoveCharacter(ts, k, max);
      RemovePass([Plain(ts[0].s[1..])] + ts[1..], k, max);
    }
  }

  lemma {:induction false} RemoveCharacter(ts: seq<Token>, k: nat, max: nat)
    requires ts != [] && ts[0].Plain? && ts[0].s != "" && AreTokens(ts, max) && !HasSequence(OnlyText(ts), k)
    ensures var tail := [Plain(ts[0].s[1..])] + ts[1..];
            && AreTokens(tail, max) && !HasSequence(OnlyText(tail), k)
            && Remove(TokensText(ts), k) == [ts[0].s[0]] + Remove(TokensText(tail), k)
            && TokensText(Without(ts, k)) == [ts[0].s[0]] + TokensText(Without(tail, k))
  {
    hide MatchSequence, HasSequence, TokensText, OnlyText, Without;
    var s, tail := ts[0].s, [Plain(ts[0].s[1..])] + ts[1..];
    assert ts == [Plain(s)] + ts[1..];
    ShorterPlain(s, ts[1..], k);
    assert ([s[0]] + OnlyText(tail))[1..] == OnlyText(tail) && ([s[0]] + TokensText(tail))[1..] == TokensText(tail);
    SequenceHereOrLater(OnlyText(ts), k);
    NoMatchInPlain(ts, k);
  }

  lemma {:induction false} PlainTokensText(ts: seq<Token>)
    requires AreTokens(ts, 0)
    ensures TokensText(ts) == OnlyText(ts)
    decreases |ts|
  {
    if ts != [] { PlainTokensText(ts[1..]); }
  }

  /** Text in which no pattern matches comes through the five passes alone, without the sequences around it. */
  lemma {:induction false} StripRemovesSequences(ts: seq<Token>)
    requires AreTokens(ts, 5) && Free(OnlyText(ts))
    ensures Strip(TokensText(ts)) == OnlyText(ts)
  {
    hide Remove, TokensText, OnlyText, Without, AreTokens, HasSequence;
    var ts4 := Without(ts, 5);
    var ts3 := Without(ts4, 4);
    var ts2 := Without(ts3, 3);
    var ts1 := Without(ts2, 2);
    RemovePass(ts, 5, 5);
    WithoutAreTokens(ts, 5);
    RemovePass(ts4, 4, 4);
    WithoutAreTokens(ts4, 4);
    RemovePass(ts3, 3, 3);
    WithoutAreTokens(ts3, 3);
    RemovePass(ts2, 2, 2);
    WithoutAreTokens(ts2, 2);
    RemovePass(ts1, 1, 1);
    WithoutAreTokens(ts1, 1);
    PlainTokensText(Without(ts1, 1));
  }

  /** Stripping is complete, that is, leaves the text around the sequences and no sequence, if and only if
      none of the patterns matches in that text. */
  lemma {:induction false} StripTokens(ts: seq<Token>)
    requires AreTokens(ts, 5)
    ensures Strip(TokensText(ts)) == OnlyText(ts) && Free(Strip(TokensText(ts))) <==> Free(OnlyText(ts))
  {
    if Free(OnlyText(ts)) {
      StripRemovesSequences(ts);
    }
  }

  // ---- Rendered text is made of tokens

  lemma {:induction false} OneNumber(a: string)
    requires IsNumber(a)
    ensures CodeText([a]) == a + "m" && IsToken(Sequence([a]), 5)
  {
  }

  lemma {:induction false} TwoNumbers(a: string, b: string)
    requires IsNumber(a) && IsNumber(b)
    ensures CodeText([a, b]) == a + ";" + b + "m" && IsToken(Sequence([a, b]), 5)
  {
    assert [a, b][1..] == [b];
    Assoc(a + ";", b, "m");
  }

  // ---- The colour table and the standard's numbers

  datatype Family = Style | Foreground | Bright | Background | BrightBackground

  ghost function FamilyOf(c: Color): (f: Family) {
    if c.Bold? || c.Underline? || c.Blink? || c.Reverse? then Style
    else if c.Black? || c.Red? || c.Green? || c.Yellow? || c.Blue? || c.Magenta? || c.Cyan? || c.White? then Foreground
    else if c.Gray? || c.BrightRed? || c.BrightGreen? || c.BrightYellow? then Bright
    else if c.BrightBlue? || c.BrightMagenta? || c.BrightCyan? || c.BrightWhite? then Bright
    else if c.BlackBackground? || c.RedBackground? || c.GreenBackground? || c.YellowBackground? then Background
    else if c.BlueBackground? || c.MagentaBackground? || c.CyanBackground? || c.WhiteBackground? then Background
    else BrightBackground
  }

  /** Black, red, green, yellow, blue, magenta, cyan, white are the colours 0 to 7. */
  ghost function Hue(c: Color): (n: nat)
    ensures n < 8
  {
    if c.Black? || c.Gray? || c.BlackBackground? then 0
    else if c.Red? || c.BrightRed? || c.RedBackground? || c.BrightRedBackground? then 1
    else if c.Green? || c.BrightGreen? || c.GreenBackground? || c.BrightGreenBackground? then 2
    else if c.Yellow? || c.BrightYellow? || c.YellowBackground? || c.BrightYellowBackground? then 3
    else if c.Blue? || c.BrightBlue? || c.BlueBackground? || c.BrightBlueBackground? then 4
    else if c.Magenta? || c.BrightMagenta? || c.MagentaBackground? || c.BrightMagentaBackground? then 5
    else if c.Cyan? || c.BrightCyan? || c.CyanBackground? || c.BrightCyanBackground? then 6
    else 7
  }

  ghost function Digit(n: nat): (c: char)
    requires n < 8
    ensures IsDigit(c)
  {
    if n == 0 then '0' else if n == 1 then '1' else if n == 2 then '2' else if n == 3 then '3'
    else if n == 4 then '4' else if n == 5 then '5' else if n == 6 then '6' else '7'
  }

  /** The numbers that select a colour: 30 to 37 in the foreground, behind a reset, or behind 1 for a bright colour; 40
      to 47 in the background, 100 to 107 for a bright one; and 1, 4, 5, 7 for bold, underline, blink, reverse. */
  ghost function Numbers(c: Color): (r: seq<string>) {
    var digit := Digit(Hue(c));
    match FamilyOf(c)
    case Style => [[if c.Bold? then '1' else if c.Underline? then '4' else if c.Blink? then '5' else '7']]
    case Foreground => ["0", ['3', digit]]
    case Bright => ["1", ['3', digit]]
    case Background => [['4', digit]]
    case BrightBackground => [['1', '0', digit]]
  }

  lemma {:induction false} StyleCode(c: Color)
    requires FamilyOf(c) == Style
    ensures ColorCode(c) == Numbers(c)[0] + "m"
  {
  }

  lemma {:induction false} ForegroundCode(c: Color)
    requires FamilyOf(c) == Foreground
    ensures ColorCode(c) == ['0', ';', '3', Digit(Hue(c)), 'm']
  {
  }

  lemma {:induction false} BrightCode(c: Color)
    requires FamilyOf(c) == Bright
    ensures ColorCode(c) == ['1', ';', '3', Digit(Hue(c)), 'm']
  {
  }

  lemma {:induction false} BackgroundCode(c: Color)
    requires FamilyOf(c) == Background
    ensures ColorCode(c) == ['4', Digit(Hue(c)), 'm']
  {
  }

  lemma {:induction false} BrightBackgroundCode(c: Color)
    requires FamilyOf(c) == BrightBackground
    ensures ColorCode(c) == ['1', '0', Digit(Hue(c)), 'm']
  {
  }

  lemma {:induction false} CodeOfTwo(a: char, digit: char)
    requires IsDigit(a) && IsDigit(digit)
    ensures CodeText([[a], ['3', digit]]) == [a, ';', '3', digit, 'm'] && IsToken(Sequence([[a], ['3', digit]]), 5)
  {
    TwoNumbers([a], ['3', digit]);
    assert [a] + ";" + ['3', digit] + "m" == [a, ';', '3', digit, 'm'];
  }

  lemma {:induction false} CodeOfOne(digit: char)
    requires IsDigit(digit)
    ensures CodeText([[digit]]) == [digit] + "m" && IsToken(Sequence([[digit]]), 5)
    ensures CodeText([['4', digit]]) == ['4', digit, 'm'] && IsToken(Sequence([['4', digit]]), 5)
    ensures CodeText([['1', '0', digit]]) == ['1', '0', digit, 'm'] && IsToken(Sequence([['1', '0', digit]]), 5)
  {
    OneNumber([digit]);
    OneNumber(['4', digit]);
    OneNumber(['1', '0', digit]);
  }

  /** Every entry of the colour table is the code of the numbers that the standard has for it. */
  lemma {:induction false} ColorCodeIsSequence(c: Color)
    ensures ColorCode(c) == CodeText(Numbers(c)) && IsToken(Sequence(Numbers(c)), 5)
  {
    hide ColorCode, FamilyOf, Hue, Digit, CodeText, IsToken;
    match FamilyOf(c)
    case Style =>
      StyleCode(c);
      CodeOfOne(Numbers(c)[0][0]);
    case Foreground =>
      ForegroundCode(c);
      CodeOfTwo('0', Digit(Hue(c)));
    case Bright =>
      BrightCode(c);
      CodeOfTwo('1', Digit(Hue(c)));
    case Background =>
      BackgroundCode(c);
      CodeOfOne(Digit(Hue(c)));
    case BrightBackground =>
      BrightBackgroundCode(c);
      CodeOfOne(Digit(Hue(c)));
  }

  lemma {:induction false} TokensTextAppend(a: seq<Token>, b: seq<Token>)
    ensures TokensText(a + b) == TokensText(a) + TokensText(b)
    decreases |a|
  {
    hide TokenText;
    if a == [] {
      assert a + b == b;
    } else {
      assert (a + b)[0] == a[0] && (a + b)[1..] == a[1..] + b;
      TokensTextAppend(a[1..], b);
      Assoc(TokenText(a[0]), TokensText(a[1..]), TokensText(b));
    }
  }

  lemma {:induction false} OnlyTextAppend(a: seq<Token>, b: seq<Token>)
    ensures OnlyText(a + b) == OnlyText(a) + OnlyText(b)
    decreases |a|
  {
    if a == [] {
      assert a + b == b;
    } else {
      assert (a + b)[0] == a[0] && (a + b)[1..] == a[1..] + b;
      OnlyTextAppend(a[1..], b);
      Assoc(if a[0].Plain? then a[0].s else "", OnlyText(a[1..]), OnlyText(b));
    }
  }

  lemma {:induction false} OneToken(t: Token)
    ensures TokensText([t]) == TokenText(t) && OnlyText([t]) == if t.Plain? then t.s else ""
  {
    assert [t][1..] == [];
  }

  /** A rendered text, token by token. */
  ghost function Tokens(d: Doc): (ts: seq<Token>) {
    match d
    case Text(s) => [Plain(s)]
    case Styled(color, doc) => [Sequence(Numbers(color))] + Tokens(doc) + [Sequence(["0", "0"])]
    case Concat(left, right) => Tokens(left) + Tokens(right)
  }

  lemma {:induction false} WrapTokens(numbers: seq<string>, ts: seq<Token>)
    requires IsToken(Sequence(numbers), 5) && AreTokens(ts, 5)
    ensures var r := [Sequence(numbers)] + ts + [Sequence(["0", "0"])];
            && AreTokens(r, 5) && OnlyText(r) == OnlyText(ts)
            && TokensText(r) == [ESC, '['] + CodeText(numbers) + TokensText(ts) + ([ESC, '['] + "0;0m")
  {
    hide TokensText, OnlyText, CodeText;
    var start, reset := Sequence(numbers), Sequence(["0", "0"]);
    TwoNumbers("0", "0");
    assert "0" + ";" + "0" + "m" == "0;0m";
    OneToken(start);
    OneToken(reset);
    TokensTextAppend([start], ts);
    TokensTextAppend([start] + ts, [reset]);
    OnlyTextAppend([start], ts);
    OnlyTextAppend([start] + ts, [reset]);
  }

  /** Rendered text is made of tokens, and its text tokens are the plain text. */
  lemma {:induction false} RenderIsTokens(d: Doc)
    ensures Render(d, true) == TokensText(Tokens(d)) && OnlyText(Tokens(d)) == PlainText(d) && AreTokens(Tokens(d), 5)
  {
    hide TokensText, OnlyText, CodeText, ColorCode, Numbers;
    match d
    case Text(s) =>
      OneToken(Plain(s));
    case Concat(left, right) =>
      RenderIsTokens(left);
      RenderIsTokens(right);
      TokensTextAppend(Tokens(left), Tokens(right));
      OnlyTextAppend(Tokens(left), Tokens(right));
    case Styled(color, doc) =>
      RenderIsTokens(doc);
      ColorCodeIsSequence(color);
      WrapTokens(Numbers(color), Tokens(doc));
  }

  lemma {:induction false} DisabledRender(d: Doc)
    ensures Render(d, false) == PlainText(d)
  {
    match d
    case Text(_) =>
    case Styled(_, doc) => DisabledRender(doc);
    case Concat(left, right) =>
      DisabledRender(left);
      DisabledRender(right);
  }

  /** Stripping rendered text gives back the plain text and leaves no sequence, for every nesting and
      concatenation of colours, if and only if none of the patterns matches in the plain text. */
  lemma {:induction false} StripRender(d: Doc, enabled: bool)
    ensures Strip(Render(d, enabled)) == PlainText(d) && Free(Strip(Render(d, enabled))) <==> Free(PlainText(d))
  {
    hide Strip, Free, TokensText, OnlyText;
    if enabled {
      RenderIsTokens(d);
      StripTokens(Tokens(d));
    } else {
      DisabledRender(d);
      OneToken(Plain(PlainText(d)));
      StripTokens([Plain(PlainText(d))]);
    }
  }

  /** In particular plain text without ESC characters comes back. */
  lemma {:induction false} NoEscapeIsFree(s: string)
    requires NoEscape(s)
    ensures Free(s)
  {
    hide MatchNumbers;
    forall k | 1 <= k <= 5
      ensures !HasSequence(s, k)
    {
      HasSequenceIfMatched(s, k);
      assert forall i :: 0 <= i < |s| ==> s[i..][0] == s[i];
    }
  }

  // ---- Text with ESC characters of its own

  /** A pass never lengthens a text, and leaves it alone exactly when its pattern matches nowhere. */
  lemma {:induction false} RemoveKeeps(s: string, k: nat)
    ensures |Remove(s, k)| <= |s|
    ensures Remove(s, k) == s <==> !HasSequence(s, k)
    ensures |Remove(s, k)| == |s| ==> Remove(s, k) == s
    decreases |s|
  {
    if s == "" {
      NothingToMatch(k);
    } else {
      hide MatchSequence, HasSequence;
      SequenceHereOrLater(s, k);
      var m := MatchSequence(s, k);
      if m.Rest? {
        RemoveKeeps(m.text, k);
      } else {
        RemoveKeeps(s[1..], k);
        assert s == [s[0]] + s[1..];
        assert ([s[0]] + Remove(s[1..], k))[1..] == Remove(s[1..], k);
      }
    }
  }

  /** Plain text survives stripping exactly when none of the five patterns matches in it. */
  lemma {:induction false} StripKeepsExactly(s: string)
    ensures Strip(s) == s <==> Free(s)
  {
    hide Remove, HasSequence;
    var s5 := Remove(s, 5);
    var s4 := Remove(s5, 4);
    var s3 := Remove(s4, 3);
    var s2 := Remove(s3, 2);
    RemoveKeeps(s, 5);
    RemoveKeeps(s5, 4);
    RemoveKeeps(s4, 3);
    RemoveKeeps(s3, 2);
    RemoveKeeps(s2, 1);
  }

  /** One pass over a sequence in the middle of another. */
  lemma {:induction false} RemoveInner(k: nat)
    ensures Remove([ESC, '['] + ([ESC, '['] + "1m" + "2m"), k)
         == [ESC, '['] + if k == 1 then "2m" else [ESC, '['] + "1m" + "2m"
  {
    var rest := [ESC, '['] + "1m" + "2m";
    var s := [ESC, '['] + rest;
    OneNumber("1");
    assert s[1..] == "[" + rest && s[2..] == rest && DropDigits(rest) == rest;
    assert MatchSequence(s, k) == NoMatch;
    hide MatchSequence;
    RemoveSkips("[", rest, k);
    RemoveSequence("1m", ["1"], "2m", k);
    RemoveSkips("2m", "", k);
    assert "2m" + "" == "2m";
    assert [ESC] + ("[" + Remove(rest, k)) == [ESC, '['] + Remove(rest, k);
  }

  /** On text that has ESC characters of its own, removing one sequence can complete another that its pass
      has already gone by: stripping is not complete there, as it cannot be by `StripTokens`. */
  lemma {:induction false} StripLeavesSequence()
    ensures Strip([ESC, '['] + ([ESC, '['] + "1m" + "2m")) == [ESC, '['] + "2m"
  {
    hide Remove;
    forall k: nat
      ensures Remove([ESC, '['] + ([ESC, '['] + "1m" + "2m"), k)
           == [ESC, '['] + if k == 1 then "2m" else [ESC, '['] + "1m" + "2m"
    {
      RemoveInner(k);
    }
  }
}
