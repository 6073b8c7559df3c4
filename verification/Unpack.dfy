/**
 Unpack: an escape-aware run-length decoder over runes, against the grammar
 (token count?)* where a token is a plain rune or a backslash before a backslash or digit.
 */
module Unpack {
  import opened Domain

  /**
   unicode.IsDigit is a table lookup beyond Latin-1; everything below holds for any class of
   digits that is right there. A digit outside ASCII is a digit, but no count.
   */
  ghost predicate DigitClass(isDigit: char -> bool) {
    forall c: char | c <= '\U{FF}' :: isDigit(c) <==> '0' <= c <= '9'
  }

  // ----- grammar

  datatype Token = Token(ch: char, escaped: bool, count: Option<nat>)

  predicate WellFormed(isDigit: char -> bool, t: Token) {
    && (if t.escaped then t.ch == '\\' || isDigit(t.ch) else t.ch != '\\' && !isDigit(t.ch))
    && (t.count.Some? ==> t.count.value <= 9)
  }

  function DigitRune(d: nat): char
    requires d <= 9
  {
    '0' + d as char
  }

  /** How a token is written. */
  function Render(t: Token): string
    requires t.count.Some? ==> t.count.value <= 9
  {
    (if t.escaped then ['\\', t.ch] else [t.ch]) + (if t.count.Some? then [DigitRune(t.count.value)] else [])
  }

  function Repeat(ch: char, n: nat): string {
    seq(n, _ => ch)
  }

  /** What a token stands for. */
  function Expand(t: Token): string {
    Repeat(t.ch, if t.count.Some? then t.count.value else 1)
  }

  predicate AllWellFormed(isDigit: char -> bool, ts: seq<Token>) {
    forall i | 0 <= i < |ts| :: WellFormed(isDigit, ts[i])
  }

  function RenderAll(isDigit: char -> bool, ts: seq<Token>): string
    requires AllWellFormed(isDigit, ts)
  {
    if ts == [] then "" else Render(ts[0]) + RenderAll(isDigit, ts[1..])
  }

  function ExpandAll(ts: seq<Token>): string {
    if ts == [] then "" else Expand(ts[0]) + ExpandAll(ts[1..])
  }

  /** ts is a derivation of s in the grammar. */
  ghost predicate Derives(isDigit: char -> bool, ts: seq<Token>, s: string) {
    AllWellFormed(isDigit, ts) && RenderAll(isDigit, ts) == s
  }

  // ----- reading one token

  predicate AsciiDigit(c: char) {
    '0' <= c <= '9'
  }

  function DigitValue(c: char): (d: nat)
    requires AsciiDigit(c)
    ensures d <= 9 && DigitRune(d) == c
  {
    (c - '0') as nat
  }

  /** The token at the front and its written length, if there is one. */
  function ReadToken(isDigit: char -> bool, s: string): (r: Option<(Token, nat)>)
    requires s != []
    ensures r.Some? ==> 1 <= r.value.1 <= |s|
  {
    if isDigit(s[0]) then None
    else if s[0] == '\\' then
      if |s| == 1 || (s[1] != '\\' && !isDigit(s[1])) then None else ReadCount(isDigit, s, s[1], true, 2)
    else ReadCount(isDigit, s, s[0], false, 1)
  }

  function ReadCount(isDigit: char -> bool, s: string, ch: char, escaped: bool, k: nat): (r: Option<(Token, nat)>)
    requires 1 <= k <= |s|
    ensures r.Some? ==> k <= r.value.1 <= |s|
  {
    if k < |s| && isDigit(s[k]) then
      if AsciiDigit(s[k]) then Some((Token(ch, escaped, Some(DigitValue(s[k]))), k + 1)) else None
    else Some((Token(ch, escaped, None), k))
  }

  function Parse(isDigit: char -> bool, s: string): Option<seq<Token>> {
    if s == [] then Some([])
    else
      var head := ReadToken(isDigit, s);
      if head.None? then None
      else
        var rest := Parse(isDigit, s[head.value.1..]);
        if rest.None? then None else Some([head.value.0] + rest.value)
  }

  lemma ReadTokenSound(isDigit: char -> bool, s: string)
    requires DigitClass(isDigit) && s != [] && ReadToken(isDigit, s).Some?
    ensures var (t, k) := ReadToken(isDigit, s).value; WellFormed(isDigit, t) && Render(t) == s[..k]
  {
  }

  /** What follows a rendered token never starts with a digit, so its count cannot be mistaken. */
  lemma ReadTokenComplete(isDigit: char -> bool, t: Token, rest: string)
    requires DigitClass(isDigit) && WellFormed(isDigit, t) && (rest != [] ==> !isDigit(rest[0]))
    ensures ReadToken(isDigit, Render(t) + rest) == Some((t, |Render(t)|))
  {
    var s := Render(t) + rest;
    if t.count.Some? {
      var k := |Render(t)| - 1;
      assert s[k] == DigitRune(t.count.value);
      assert DigitValue(s[k]) == t.count.value;
    }
  }

  lemma {:induction false} ParseSound(isDigit: char -> bool, s: string)
    requires DigitClass(isDigit) && Parse(isDigit, s).Some?
    ensures Derives(isDigit, Parse(isDigit, s).value, s)
  {
    if s != [] {
      var (t, k) := ReadToken(isDigit, s).value;
      ReadTokenSound(isDigit, s);
      ParseSound(isDigit, s[k..]);
      var rest := Parse(isDigit, s[k..]).value;
      assert ([t] + rest)[1..] == rest;
      assert s == s[..k] + s[k..];
    }
  }

  lemma {:induction false} ParseComplete(isDigit: char -> bool, ts: seq<Token>)
    requires DigitClass(isDigit) && AllWellFormed(isDigit, ts)
    ensures Parse(isDigit, RenderAll(isDigit, ts)) == Some(ts)
  {
    if ts != [] {
      var rest := RenderAll(isDigit, ts[1..]);
      ParseComplete(isDigit, ts[1..]);
      ReadTokenComplete(isDigit, ts[0], rest);
      assert (Render(ts[0]) + rest)[|Render(ts[0])|..] == rest;
      assert [ts[0]] + ts[1..] == ts;
    }
  }

  /** A string has at most one derivation. */
  lemma DerivationUnique(isDigit: char -> bool, ts: seq<Token>, ts': seq<Token>, s: string)
    requires DigitClass(isDigit) && Derives(isDigit, ts, s) && Derives(isDigit, ts', s)
    ensures ts == ts'
  {
    ParseComplete(isDigit, ts);
    ParseComplete(isDigit, ts');
  }

  // ----- the loop

  lemma ExpandSnoc(ts: seq<Token>, t: Token)
    ensures ExpandAll(ts + [t]) == ExpandAll(ts) + Expand(t)
  {
    ExpandConcat(ts, [t]);
    assert [t][1..] == [] && ExpandAll([t]) == Expand(t) + ExpandAll([]);
  }

  /** At most nine runes come out of every two that go in. */
  lemma {:induction false} ExpansionBound(isDigit: char -> bool, ts: seq<Token>)
    requires AllWellFormed(isDigit, ts)
    ensures 2 * |ExpandAll(ts)| <= 9 * |RenderAll(isDigit, ts)|
  {
    if ts != [] { ExpansionBound(isDigit, ts[1..]); }
  }

  /** What a string unpacks to; see the laws below. */
  function Unpacked(isDigit: char -> bool, s: string): Option<string> {
    var ts := Parse(isDigit, s);
    if ts.Some? then Some(ExpandAll(ts.value)) else None
  }

  /**
   Unpack succeeds exactly on the strings of the grammar, and gives the expansion of the one
   derivation.
   */
  method Unpack(isDigit: char -> bool, runes: string) returns (result: Option<string>)
    requires DigitClass(isDigit)
    ensures result.Some? <==> exists ts :: Derives(isDigit, ts, runes)
    ensures forall ts | Derives(isDigit, ts, runes) :: result == Some(ExpandAll(ts))
    ensures result.Some? ==> 2 * |result.value| <= 9 * |runes|
    ensures result == Unpacked(isDigit, runes)
  {
    var builder := "";
    ghost var ts: seq<Token> := [];
    var i := 0;
    assert runes[0..] == runes;
    assert forall rest: seq<Token> :: [] + rest == rest;
    while i < |runes|
      invariant 0 <= i <= |runes|
      invariant Parse(isDigit, runes) == Joined(ts, Parse(isDigit, runes[i..]))
      invariant builder == ExpandAll(ts)
    {
      ghost var from := i;
      ghost var head := ReadToken(isDigit, runes[from..]);
      var current := runes[i];
      if isDigit(current) {
        NoDerivation(isDigit, runes);
        return None;
      }
      if current == '\\' {
        i := i + 1;
        if i == |runes| || (runes[i] != '\\' && !isDigit(runes[i])) {
          NoDerivation(isDigit, runes);
          return None;
        }
        current := runes[i];
      }
      var repeatCount := 1;
      if i + 1 < |runes| && isDigit(runes[i + 1]) {
        if !AsciiDigit(runes[i + 1]) {
          NoDerivation(isDigit, runes);
          return None;
        }
        repeatCount := DigitValue(runes[i + 1]);
        i := i + 1;
      }
      builder := builder + Repeat(current, repeatCount);
      i := i + 1;
      ExpandSnoc(ts, head.value.0);
      assert runes[from..][head.value.1..] == runes[i..];
      JoinedNext(ts, head.value.0, Parse(isDigit, runes[i..]));
      ts := ts + [head.value.0];
    }
    assert runes[i..] == [];
    assert ts + [] == ts;
    ParseSound(isDigit, runes);
    forall ts' | Derives(isDigit, ts', runes) ensures ts' == ts { DerivationUnique(isDigit, ts, ts', runes); }
    ExpansionBound(isDigit, ts);
    return Some(builder);
  }

  /** Tokens read so far, followed by the parse of the rest. */
  function Joined(ts: seq<Token>, rest: Option<seq<Token>>): Option<seq<Token>> {
    if rest.Some? then Some(ts + rest.value) else None
  }

  lemma JoinedNext(ts: seq<Token>, t: Token, rest: Option<seq<Token>>)
    ensures Joined(ts, if rest.None? then None else Some([t] + rest.value)) == Joined(ts + [t], rest)
  {
    if rest.Some? { assert ts + ([t] + rest.value) == ts + [t] + rest.value; }
  }

  lemma NoDerivation(isDigit: char -> bool, s: string)
    requires DigitClass(isDigit) && Parse(isDigit, s).None?
    ensures !exists ts :: Derives(isDigit, ts, s)
  {
    forall ts | AllWellFormed(isDigit, ts) ensures RenderAll(isDigit, ts) != s { ParseComplete(isDigit, ts); }
  }

  // ----- laws

  lemma {:induction false} RenderConcat(isDigit: char -> bool, ts: seq<Token>, ts': seq<Token>)
    requires AllWellFormed(isDigit, ts) && AllWellFormed(isDigit, ts') && AllWellFormed(isDigit, ts + ts')
    ensures RenderAll(isDigit, ts + ts') == RenderAll(isDigit, ts) + RenderAll(isDigit, ts')
  {
    if ts == [] {
      assert ts + ts' == ts';
    } else {
      assert (ts + ts')[1..] == ts[1..] + ts';
      RenderConcat(isDigit, ts[1..], ts');
    }
  }

  lemma {:induction false} ExpandConcat(ts: seq<Token>, ts': seq<Token>)
    ensures ExpandAll(ts + ts') == ExpandAll(ts) + ExpandAll(ts')
  {
    if ts == [] {
      assert ts + ts' == ts';
    } else {
      assert (ts + ts')[1..] == ts[1..] + ts';
      ExpandConcat(ts[1..], ts');
    }
  }

  lemma ConcatDerives(isDigit: char -> bool, ts: seq<Token>, ts': seq<Token>, s: string, s': string)
    requires Derives(isDigit, ts, s) && Derives(isDigit, ts', s')
    ensures Derives(isDigit, ts + ts', s + s') && ExpandAll(ts + ts') == ExpandAll(ts) + ExpandAll(ts')
  {
    RenderConcat(isDigit, ts, ts');
    ExpandConcat(ts, ts');
  }

  /** Valid packed strings unpack piece by piece. */
  method UnpackConcat(isDigit: char -> bool, a: string, b: string) returns (whole: Option<string>)
    requires DigitClass(isDigit)
    requires exists ts :: Derives(isDigit, ts, a)
    requires exists ts :: Derives(isDigit, ts, b)
    ensures forall ts, ts' | Derives(isDigit, ts, a) && Derives(isDigit, ts', b) ::
      whole == Some(ExpandAll(ts) + ExpandAll(ts'))
  {
    whole := Unpack(isDigit, a + b);
    forall ts, ts' | Derives(isDigit, ts, a) && Derives(isDigit, ts', b)
      ensures whole == Some(ExpandAll(ts) + ExpandAll(ts'))
    {
      ConcatDerives(isDigit, ts, ts', a, b);
    }
  }

  // ----- what is unpacked, in terms of what is written

  /** w writes the rune c, without a count: plainly, or escaped where it has to be. */
  predicate Writes(isDigit: char -> bool, w: string, c: char) {
    || (w == [c] && c != '\\' && !isDigit(c))
    || (w == ['\\', c] && (c == '\\' || isDigit(c)))
  }

  /** A valid string and what follows it are read one after the other, unless a digit follows. */
  lemma {:induction false} ParseAppend(isDigit: char -> bool, ts: seq<Token>, rest: string)
    requires DigitClass(isDigit) && AllWellFormed(isDigit, ts) && (rest != [] ==> !isDigit(rest[0]))
    ensures Parse(isDigit, RenderAll(isDigit, ts) + rest) == Joined(ts, Parse(isDigit, rest))
  {
    if ts == [] {
      assert RenderAll(isDigit, ts) + rest == rest;
      assert forall more: seq<Token> :: [] + more == more;
    } else {
      var head, tail := Render(ts[0]), RenderAll(isDigit, ts[1..]) + rest;
      ParseAppend(isDigit, ts[1..], rest);
      ReadTokenComplete(isDigit, ts[0], tail);
      assert RenderAll(isDigit, ts) + rest == head + tail && (head + tail)[|head|..] == tail;
      JoinedFirst(ts, Parse(isDigit, rest));
    }
  }

  lemma JoinedFirst(ts: seq<Token>, rest: Option<seq<Token>>)
    requires ts != []
    ensures Joined(ts, rest) ==
      if Joined(ts[1..], rest).None? then None else Some([ts[0]] + Joined(ts[1..], rest).value)
  {
    if rest.Some? { assert ts + rest.value == [ts[0]] + (ts[1..] + rest.value); }
  }

  /** A token after a valid string adds what it stands for. */
  lemma TokenAfter(isDigit: char -> bool, s: string, t: Token)
    requires DigitClass(isDigit) && Unpacked(isDigit, s).Some? && WellFormed(isDigit, t)
    ensures Unpacked(isDigit, s + Render(t)) == Some(Unpacked(isDigit, s).value + Expand(t))
  {
    var ts := Parse(isDigit, s).value;
    ParseSound(isDigit, s);
    ParseAppend(isDigit, ts, Render(t));
    ParseComplete(isDigit, [t]);
    assert [t][1..] == [] && RenderAll(isDigit, [t]) == Render(t);
    ExpandSnoc(ts, t);
  }

  /** A rune written without a count stands for itself. */
  lemma UnpackRune(isDigit: char -> bool, s: string, w: string, c: char)
    requires DigitClass(isDigit) && Unpacked(isDigit, s).Some? && Writes(isDigit, w, c)
    ensures Unpacked(isDigit, "") == Some("")
    ensures Unpacked(isDigit, s + w) == Some(Unpacked(isDigit, s).value + [c])
  {
    var t := Token(c, |w| == 2, None);
    assert Render(t) == w && Expand(t) == [c];
    TokenAfter(isDigit, s, t);
  }

  /** The count 0 takes the rune away, and a count one higher writes it once more. */
  lemma UnpackCount(isDigit: char -> bool, s: string, w: string, c: char, d: nat)
    requires DigitClass(isDigit) && Unpacked(isDigit, s).Some? && Writes(isDigit, w, c) && d < 9
    ensures Unpacked(isDigit, s + w + "0") == Unpacked(isDigit, s)
    ensures var fewer, more := Unpacked(isDigit, s + w + ['0' + d as char]),
                               Unpacked(isDigit, s + w + ['1' + d as char]);
      fewer.Some? && more == Some(fewer.value + [c])
  {
    CountAfter(isDigit, s, w, c, 0);
    CountAfter(isDigit, s, w, c, d);
    CountAfter(isDigit, s, w, c, d + 1);
    var u := Unpacked(isDigit, s).value;
    assert u + Repeat(c, 0) == u && u + Repeat(c, d + 1) == u + Repeat(c, d) + [c];
    assert [DigitRune(0)] == "0" && DigitRune(d) == '0' + d as char && DigitRune(d + 1) == '1' + d as char;
  }

  lemma CountAfter(isDigit: char -> bool, s: string, w: string, c: char, d: nat)
    requires DigitClass(isDigit) && Unpacked(isDigit, s).Some? && Writes(isDigit, w, c) && d <= 9
    ensures Unpacked(isDigit, s + w + [DigitRune(d)]) == Some(Unpacked(isDigit, s).value + Repeat(c, d))
  {
    var t := Token(c, |w| == 2, Some(d));
    assert s + Render(t) == s + w + [DigitRune(d)];
    TokenAfter(isDigit, s, t);
  }

  /** Nothing that follows a valid string can mend a part that cannot be read. */
  lemma UnreadableAfter(isDigit: char -> bool, s: string, bad: string)
    requires DigitClass(isDigit) && Unpacked(isDigit, s).Some?
    requires bad != [] && !isDigit(bad[0]) && Parse(isDigit, bad).None?
    ensures Unpacked(isDigit, s + bad).None?
  {
    ParseSound(isDigit, s);
    ParseAppend(isDigit, Parse(isDigit, s).value, bad);
  }

  /** What is refused: a digit in front, a dangling or needless escape, two digits, a digit that is no count. */
  lemma UnpackRefuses(isDigit: char -> bool, s: string, w: string, c: char, d: char, x: char, rest: string)
    requires DigitClass(isDigit) && Unpacked(isDigit, s).Some? && Writes(isDigit, w, c)
    ensures isDigit(x) ==> Unpacked(isDigit, [x] + rest).None?
    ensures Unpacked(isDigit, s + "\\").None?
    ensures x != '\\' && !isDigit(x) ==> Unpacked(isDigit, s + (['\\', x] + rest)).None?
    ensures isDigit(d) && isDigit(x) ==> Unpacked(isDigit, s + (w + [d, x] + rest)).None?
    ensures isDigit(x) && !('0' <= x <= '9') ==> Unpacked(isDigit, s + (w + [x] + rest)).None?
  {
    assert !isDigit('\\');
    UnreadableAfter(isDigit, s, "\\");
    if x != '\\' && !isDigit(x) { UnreadableAfter(isDigit, s, ['\\', x] + rest); }
    if isDigit(x) && !AsciiDigit(x) { UnreadableAfter(isDigit, s, w + [x] + rest); }
    if isDigit(d) && isDigit(x) {
      TwoDigits(isDigit, w, c, d, x, rest);
      UnreadableAfter(isDigit, s, w + [d, x] + rest);
    }
  }

  lemma TwoDigits(isDigit: char -> bool, w: string, c: char, d: char, x: char, rest: string)
    requires DigitClass(isDigit) && Writes(isDigit, w, c) && isDigit(d) && isDigit(x)
    ensures Parse(isDigit, w + [d, x] + rest).None?
  {
    var s := w + [d, x] + rest;
    if AsciiDigit(d) {
      var t := Token(c, |w| == 2, Some(DigitValue(d)));
      assert ReadToken(isDigit, s) == Some((t, |w| + 1));
      assert s[|w| + 1..] == [x] + rest;
    }
  }

  // ----- packing

  /** The length of the run at the front, at most nine. */
  function RunLength(s: string, n: nat): (k: nat)
    requires 1 <= n <= |s| && n <= 9 && forall i | 0 <= i < n :: s[i] == s[0]
    ensures n <= k <= |s| && k <= 9 && forall i | 0 <= i < k :: s[i] == s[0]
    decreases 9 - n
  {
    if n < |s| && n < 9 && s[n] == s[0] then RunLength(s, n + 1) else n
  }

  /** Run-length tokens for a string, escaping what needs it. */
  function Pack(isDigit: char -> bool, s: string): (ts: seq<Token>) {
    if s == [] then []
    else
      var k := RunLength(s, 1);
      [Token(s[0], s[0] == '\\' || isDigit(s[0]), if k == 1 then None else Some(k))] + Pack(isDigit, s[k..])
  }

  /** The token for a run of k equal runes in front of a packed rest. */
  lemma PackedRun(isDigit: char -> bool, s: string, k: nat, t: Token, rest: seq<Token>)
    requires 1 <= k <= |s| && forall i | 0 <= i < k :: s[i] == s[0]
    requires WellFormed(isDigit, t) && t.ch == s[0] && t.count == if k == 1 then None else Some(k)
    requires AllWellFormed(isDigit, rest) && ExpandAll(rest) == s[k..]
    ensures AllWellFormed(isDigit, [t] + rest) && ExpandAll([t] + rest) == s
  {
    assert ([t] + rest)[1..] == rest;
    assert Expand(t) == s[..k];
    assert s == s[..k] + s[k..];
  }

  /** Every string has a packed form, and it unpacks to the string. */
  lemma {:induction false} PackUnpacks(isDigit: char -> bool, s: string)
    ensures AllWellFormed(isDigit, Pack(isDigit, s)) && ExpandAll(Pack(isDigit, s)) == s
    decreases |s|
  {
    if s != [] {
      var k := RunLength(s, 1);
      PackUnpacks(isDigit, s[k..]);
      var ts := Pack(isDigit, s);
      assert ts == [ts[0]] + Pack(isDigit, s[k..]);
      PackedRun(isDigit, s, k, ts[0], Pack(isDigit, s[k..]));
    }
  }

  /** Packing a string and unpacking it again. */
  method RoundTrip(isDigit: char -> bool, s: string) returns (packed: string, unpacked: Option<string>)
    requires DigitClass(isDigit)
    ensures unpacked == Some(s)
    ensures Derives(isDigit, Pack(isDigit, s), packed)
  {
    PackUnpacks(isDigit, s);
    packed := RenderAll(isDigit, Pack(isDigit, s));
    unpacked := Unpack(isDigit, packed);
  }
}
