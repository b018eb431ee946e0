/** NUL-terminated strings in memory, and `strtok` with its saved position.  Bytes are
    modelled by characters. */
module CString {

  const NUL: char := '\0'

  ghost predicate IsText(m: string, t: string) {
    NUL !in t && t <= m && (|t| < |m| ==> m[|t|] == NUL)
  }

  lemma TextExists(m: string)
    ensures exists t :: IsText(m, t)
  {
    var n := 0;
    while n < |m| && m[n] != NUL
      invariant n <= |m| && NUL !in m[..n]
    {
      n := n + 1;
    }
    assert IsText(m, m[..n]);
  }

  /** The C string at the beginning of the memory `m`. */
  ghost function TextOf(m: string): (t: string)
    ensures IsText(m, t)
  {
    TextExists(m);
    var t :| IsText(m, t);
    t
  }

  lemma TextIsUnique(m: string, t: string, t': string)
    requires IsText(m, t) && IsText(m, t')
    ensures t <= t'
  {
    assert |t'| < |m| ==> m[|t'|] == NUL;
    assert forall i :: 0 <= i < |t| ==> t[i] == m[i] && t[i] in t;
  }

  lemma TextOfIs(t: string, m: string)
    requires IsText(m, t)
    ensures TextOf(m) == t
  {
    TextIsUnique(m, t, TextOf(m));
    TextIsUnique(m, TextOf(m), t);
  }

  lemma TextEnds(m: string)
    requires NUL in m
    ensures |TextOf(m)| < |m|
  {
    var t := TextOf(m);
    var i :| 0 <= i < |m| && m[i] == NUL;
    assert forall k :: 0 <= k < |t| ==> t[k] == m[k] && t[k] in t;
    assert i >= |t|;
  }

  predicate Stops(c: char, delims: string) {
    c in delims || c == NUL
  }

  /** What `strspn` returns: how many characters at the beginning are delimiters. */
  ghost predicate IsSpan(m: string, delims: string, n: nat) {
    && n <= |m|
    && (forall i :: 0 <= i < n ==> m[i] in delims)
    && (n < |m| ==> m[n] !in delims)
  }

  /** What `strcspn` returns: how many characters come before the first delimiter or terminator. */
  ghost predicate IsCSpan(m: string, delims: string, n: nat) {
    && n <= |m|
    && (forall i :: 0 <= i < n ==> !Stops(m[i], delims))
    && (n < |m| ==> Stops(m[n], delims))
  }

  lemma SpansExist(m: string, delims: string)
    ensures exists n :: IsSpan(m, delims, n)
    ensures exists n :: IsCSpan(m, delims, n)
  {
    var n := 0;
    while n < |m| && m[n] in delims
      invariant n <= |m| && forall i :: 0 <= i < n ==> m[i] in delims
    {
      n := n + 1;
    }
    assert IsSpan(m, delims, n);
    n := 0;
    while n < |m| && !Stops(m[n], delims)
      invariant n <= |m| && forall i :: 0 <= i < n ==> !Stops(m[i], delims)
    {
      n := n + 1;
    }
    assert IsCSpan(m, delims, n);
  }

  ghost function Span(m: string, delims: string): (n: nat)
    ensures IsSpan(m, delims, n)
  {
    SpansExist(m, delims);
    var n: nat :| IsSpan(m, delims, n);
    n
  }

  ghost function CSpan(m: string, delims: string): (n: nat)
    ensures IsCSpan(m, delims, n)
  {
    SpansExist(m, delims);
    var n: nat :| IsCSpan(m, delims, n);
    n
  }

  /** What `strtok` finds in the memory that starts at its saved position, and the memory that
      starts at the new one.  `Overrun`: the memory ends before `strtok` does. */
  datatype Token = Token(text: string, rest: string) | NoToken(rest: string) | Overrun

  ghost function CutToken(t: string, delims: string): Token {
    var len := CSpan(t, delims);
    if t == "" then Overrun
    else if t[0] == NUL then NoToken(t)
    else if len == |t| then Overrun
    else Token(t[..len], if t[len] == NUL then t[len..] else t[len + 1..])
  }

  ghost function NextToken(m: string, delims: string): Token
    requires NUL !in delims
  {
    CutToken(m[Span(m, delims)..], delims)
  }

  /** In memory with a terminator `strtok` stays before it. */
  lemma NeverOverruns(m: string, delims: string)
    requires NUL !in delims && NUL in m
    ensures var r := NextToken(m, delims); !r.Overrun? && NUL in r.rest
  {
    var i :| 0 <= i < |m| && m[i] == NUL;
    var lead := Span(m, delims);
    var t := m[lead..];
    assert i >= lead && t[i - lead] == NUL;
    var len := CSpan(t, delims);
    assert i - lead >= len && t[len..][i - lead - len] == NUL;
    if t[0] != NUL && t[len] != NUL {
      assert t[len + 1..][i - lead - len - 1] == NUL;
    }
  }

  /** A token is a piece of the memory without delimiters and terminators. */
  lemma TokenIsPiece(m: string, delims: string)
    requires NUL !in delims && NextToken(m, delims).Token?
    ensures var r := NextToken(m, delims);
            && r.text != "" && |r.text| < |m|
            && (forall c :: c in r.text ==> !Stops(c, delims))
            && exists lead :: lead + r.text <= m && forall c :: c in lead ==> c in delims
  {
    var lead := m[..Span(m, delims)];
    var t := m[|lead|..];
    assert !Stops(t[0], delims) by { assert t[0] == m[|lead|]; }
    assert m == lead + t;
    assert lead + NextToken(m, delims).text <= m;
    assert forall c :: c in lead ==> c in delims;
  }

  /** Delimiters, a word, and a character that ends it: the word is the token. */
  lemma TokenIs(m: string, lead: string, text: string, tail: string, delims: string)
    requires NUL !in delims && m == lead + text + tail
    requires forall c :: c in lead ==> c in delims
    requires text != "" && forall c :: c in text ==> !Stops(c, delims)
    requires tail != "" && Stops(tail[0], delims)
    ensures NextToken(m, delims) == Token(text, if tail[0] == NUL then tail else tail[1..])
  {
    assert m[|lead|] == text[0] && text[0] in text;
    assert forall i :: 0 <= i < |lead| ==> m[i] == lead[i] && lead[i] in lead;
    assert Span(m, delims) == |lead|;
    var t := m[|lead|..];
    assert t == text + tail;
    assert forall i :: 0 <= i < |text| ==> t[i] == text[i] && text[i] in text;
    assert t[|text|] == tail[0];
    assert CSpan(t, delims) == |text|;
  }

  /** Conversely, that is what the memory looks like when there is a token. */
  lemma TokenShape(m: string, delims: string) returns (lead: string, tail: string)
    requires NUL !in delims && NextToken(m, delims).Token?
    ensures var r := NextToken(m, delims);
            && m == lead + r.text + tail && (forall c :: c in lead ==> c in delims)
            && r.text != "" && (forall c :: c in r.text ==> !Stops(c, delims))
            && tail != "" && Stops(tail[0], delims) && r.rest == if tail[0] == NUL then tail else tail[1..]
  {
    TokenIsPiece(m, delims);
    var k := Span(m, delims);
    var t := m[k..];
    var len := CSpan(t, delims);
    lead, tail := m[..k], t[len..];
    assert t == t[..len] + tail && m == lead + t;
    assert tail[0] == t[len] && tail[1..] == t[len + 1..];
  }

  /** The common case: a word, a single delimiter, and anything behind it. */
  lemma FirstWord(word: string, d: char, rest: string, delims: string)
    requires NUL !in delims && d in delims
    requires word != "" && forall c :: c in word ==> !Stops(c, delims)
    ensures NextToken(word + [d] + rest, delims) == Token(word, rest)
  {
    var m, tail := word + [d] + rest, [d] + rest;
    assert m == [] + word + tail;
    assert tail[1..] == rest;
    TokenIs(m, [], word, tail, delims);
  }

  /** The common case: the last word before the terminator. */
  lemma LastWord(word: string, tail: string, delims: string)
    requires NUL !in delims && [NUL] <= tail
    requires word != "" && forall c :: c in word ==> !Stops(c, delims)
    ensures NextToken(word + tail, delims) == Token(word, tail)
  {
    TokenIs(word + tail, [], word, tail, delims);
  }

  /** Nothing but delimiters before the terminator: no token. */
  lemma NoTokenIs(lead: string, tail: string, delims: string)
    requires NUL !in delims
    requires forall c :: c in lead ==> c in delims
    requires tail != "" && tail[0] == NUL
    ensures NextToken(lead + tail, delims) == NoToken(tail)
  {
    var m := lead + tail;
    assert forall i :: 0 <= i < |lead| ==> m[i] == lead[i] && lead[i] in lead;
    assert m[|lead|] == NUL;
    assert Span(m, delims) == |lead|;
    assert m[|lead|..] == tail;
  }

  /** Without delimiters the token is all that is left before the terminator. */
  lemma WholeRest(m: string)
    requires NUL in m
    ensures Span(m, "") == 0
    ensures var r := NextToken(m, "");
            if m[0] == NUL then r == NoToken(m)
            else r.Token? && |r.text| < |m| && m[|r.text|] == NUL && r == Token(m[..|r.text|], m[|r.text|..])
  {
    NeverOverruns(m, "");
    assert IsSpan(m, "", 0);
    assert m[0..] == m;
  }

  lemma CutTokenAt(m: string, start: nat, end: nat, delims: string)
    requires start <= end <= |m| && end - start == CSpan(m[start..], delims)
    ensures CutToken(m[start..], delims) ==
            if start == |m| then Overrun
            else if m[start] == NUL then NoToken(m[start..])
            else if end == |m| then Overrun
            else Token(m[start..end], if m[end] == NUL then m[end..] else m[end + 1..])
  {
    hide CSpan;
    var t, len := m[start..], end - start;
    assert t[..len] == m[start..end] && t[len..] == m[end..];
    assert end < |m| ==> t[len] == m[end] && t[len + 1..] == m[end + 1..];
  }

  lemma WordAt(m: string, saved: nat, start: nat, end: nat, delims: string)
    requires saved <= start <= end <= |m|
    requires IsSpan(m[saved..], delims, start - saved) && IsCSpan(m[start..], delims, end - start)
    ensures NUL !in m[start..end]
    ensures start < |m| && m[start] == NUL ==> start == end
    ensures start < |m| && m[start] != NUL ==> start < end
  {
    assert forall i :: start <= i < end ==> m[i] == m[start..][i - start];
    assert start < |m| ==> m[start] == m[start..][0] == m[saved..][start - saved];
  }

  /** The token in terms of positions in the memory. */
  lemma TokenAt(m: string, saved: nat, start: nat, end: nat, delims: string)
    requires NUL !in delims && saved <= start <= end <= |m|
    requires start - saved == Span(m[saved..], delims)
    requires end - start == CSpan(m[start..], delims)
    ensures NextToken(m[saved..], delims) ==
            if start == |m| then Overrun
            else if m[start] == NUL then NoToken(m[end..])
            else if end == |m| then Overrun
            else Token(m[start..end], if m[end] == NUL then m[end..] else m[end + 1..])
    ensures NUL !in m[start..end]
    ensures start < |m| && m[start] != NUL ==> start < end
  {
    hide CutToken, Span, CSpan, IsSpan, IsCSpan;
    assert m[saved..][start - saved..] == m[start..];
    CutTokenAt(m, start, end, delims);
    WordAt(m, saved, start, end, delims);
  }

  /** A pointer that `strtok` returns; `Undefined` if it ran past the end of the memory. */
  datatype Pointer = At(start: nat) | Null | Undefined

  /** What a caller of `strtok` sees of the token. */
  datatype Word = Word(text: string) | NoWord | Overran

  ghost function WordOf(t: Token): Word {
    match t
    case Token(text, _) => Word(text)
    case NoToken(_) => NoWord
    case Overrun => Overran
  }

  /** The state that the C library keeps between two calls of `strtok`. */
  class Strtok {
    var buf: array<char>
    var saved: nat

    constructor (buf: array<char>)
      ensures this.buf == buf && saved == 0
    {
      this.buf, saved := buf, 0;
    }

    method StrSpn(start: nat, delims: string) returns (end: nat)
      requires start <= buf.Length
      ensures start <= end <= buf.Length && end - start == Span(buf[start..], delims)
    {
      end := start;
      while end < buf.Length && buf[end] in delims
        invariant start <= end <= buf.Length
        invariant forall i :: start <= i < end ==> buf[i] in delims
      {
        end := end + 1;
      }
      assert IsSpan(buf[start..], delims, end - start);
    }

    method StrCspn(start: nat, delims: string) returns (end: nat)
      requires start <= buf.Length
      ensures start <= end <= buf.Length && end - start == CSpan(buf[start..], delims)
    {
      end := start;
      while end < buf.Length && !Stops(buf[end], delims)
        invariant start <= end <= buf.Length
        invariant forall i :: start <= i < end ==> !Stops(buf[i], delims)
      {
        end := end + 1;
      }
      assert IsCSpan(buf[start..], delims, end - start);
    }

    /** The C string that a pointer into the buffer denotes. */
    method ReadText(start: nat) returns (t: string)
      requires start <= buf.Length
      ensures t == TextOf(buf[start..])
    {
      var end := start;
      while end < buf.Length && buf[end] != NUL
        invariant start <= end <= buf.Length && NUL !in buf[start..end]
      {
        end := end + 1;
      }
      t := buf[start..end];
      TextOfIs(t, buf[start..]);
    }

    /** The token from `start` to `end` is cut off and the position behind it is saved. */
    method Cut(start: nat, end: nat)
      requires start < end < buf.Length
      requires NUL !in buf[start..end]
      modifies this`saved, buf
      ensures saved == if old(buf[end]) == NUL then end else end + 1
      ensures buf[..] == old(buf[..])[end := NUL]
      ensures buf[saved..] == old(if buf[end] == NUL then buf[end..] else buf[end + 1..])
      ensures TextOf(buf[start..]) == old(buf[start..end])
    {
      saved := if buf[end] == NUL then end else end + 1;
      buf[end] := NUL;
      TextOfIs(old(buf[start..end]), buf[start..]);
    }

    /** Finds the next token between `saved` and the returned `end`. */
    method Find(delims: string) returns (p: Pointer, end: nat)
      requires NUL !in delims && saved <= buf.Length
      ensures match NextToken(buf[saved..], delims)
              case Overrun => p == Undefined
              case NoToken(rest) => p == Null && end <= buf.Length && buf[end..] == rest
              case Token(text, rest) =>
                && p.At? && saved <= p.start < end < buf.Length && p.start == saved + Span(buf[saved..], delims)
                && NUL !in buf[p.start..end] && text == buf[p.start..end]
                && rest == if buf[end] == NUL then buf[end..] else buf[end + 1..]
    {
      var start := StrSpn(saved, delims);
      end := StrCspn(start, delims);
      TokenAt(buf[..], saved, start, end, delims);
      p := if start == buf.Length then Undefined
           else if buf[start] == NUL then Null
           else if end == buf.Length then Undefined
           else At(start);
    }

    /** `strtok(NULL, delims)`: the delimiter behind the token is overwritten with NUL. */
    method Next(delims: string) returns (p: Pointer)
      requires NUL !in delims && saved <= buf.Length
      modifies this`saved, buf
      ensures saved <= buf.Length
      ensures match NextToken(old(buf[saved..]), delims)
              case Overrun => p == Undefined && buf[..] == old(buf[..])
              case NoToken(rest) => p == Null && buf[..] == old(buf[..]) && buf[saved..] == rest
              case Token(text, rest) =>
                && p.At? && p.start == old(saved) + Span(old(buf[saved..]), delims) && p.start + |text| < buf.Length
                && TextOf(buf[p.start..]) == text
                && buf[saved..] == rest
                && buf[..] == old(buf[..])[p.start + |text| := NUL]
    {
      var end;
      p, end := Find(delims);
      match p {
        case Undefined =>
        case Null => saved := end;
        case At(start) => Cut(start, end);
      }
    }

    /** `strtok(NULL, delims)` and the string that its result points to. */
    method NextWord(delims: string) returns (w: Word)
      requires NUL !in delims && saved <= buf.Length
      modifies this`saved, buf
      ensures saved <= buf.Length && w == WordOf(NextToken(old(buf[saved..]), delims))
      ensures !w.Overran? ==> buf[saved..] == NextToken(old(buf[saved..]), delims).rest
      ensures forall i :: 0 <= i < buf.Length ==> buf[i] == old(buf[i]) || buf[i] == NUL
    {
      var p := Next(delims);
      match p {
        case Undefined => w := Overran;
        case Null => w := NoWord;
        case At(start) =>
          var text := ReadText(start);
          w := Word(text);
      }
      assert forall i :: 0 <= i < buf.Length ==> buf[i] == buf[..][i] && old(buf[i]) == old(buf[..])[i];
    }

    /** `strtok(NULL, "")`, whose result is then where the next call starts. */
    method StartOver()
      requires saved <= buf.Length && NUL in buf[saved..]
      modifies this`saved, buf
      ensures saved == old(saved) && buf[..] == old(buf[..])
    {
      WholeRest(buf[saved..]);
      var p := Next("");
      if p.At? {
        saved := p.start;
      }
    }
  }
}
