/**
 Output limits of one run: text is cut at a code point so that its UTF-8 form fits a number of bytes, and the run
 stops at the first cut or when its token budget is spent.
 */
module OutputLimit {
  import opened Basics

  // ---- UTF-8, section 3 of RFC 3629 ----

  type Byte = b: int | 0 <= b < 256

  predicate Continuation(b: Byte) { 0x80 <= b < 0xC0 }

  /** A lead byte and up to three continuation bytes. */
  function Utf8(c: char): (bytes: seq<Byte>)
    ensures 1 <= |bytes| <= 4
    ensures !Continuation(bytes[0]) && forall i :: 0 < i < |bytes| ==> Continuation(bytes[i])
  {
    var n := c as int;
    if n < 0x80 then [n]
    else if n < 0x800 then [0xC0 + n / 64, 0x80 + n % 64]
    else if n < 0x1_0000 then [0xE0 + n / 4096, 0x80 + n / 64 % 64, 0x80 + n % 64]
    else [0xF0 + n / 26_2144, 0x80 + n / 4096 % 64, 0x80 + n / 64 % 64, 0x80 + n % 64]
  }

  function Encode(text: string): seq<Byte> {
    if text == "" then [] else Utf8(text[0]) + Encode(text[1..])
  }

  /** How many bytes a lead byte announces, none if it is not one. */
  function Announced(lead: Byte): nat {
    if lead < 0x80 then 1
    else if 0xC0 <= lead < 0xE0 then 2
    else if 0xE0 <= lead < 0xF0 then 3
    else if 0xF0 <= lead < 0xF8 then 4
    else 0
  }

  function Low(b: int, m: int): int
    requires m > 0
  {
    b % m
  }

  /** The bits of the lead byte, then six from each byte that follows. */
  function Bits(bytes: seq<Byte>): int
    requires 1 <= |bytes| <= 4
  {
    if |bytes| == 1 then bytes[0]
    else if |bytes| == 2 then Low(bytes[0], 32) * 64 + Low(bytes[1], 64)
    else if |bytes| == 3 then Low(bytes[0], 16) * 4096 + Low(bytes[1], 64) * 64 + Low(bytes[2], 64)
    else Low(bytes[0], 8) * 26_2144 + Low(bytes[1], 64) * 4096 + Low(bytes[2], 64) * 64 + Low(bytes[3], 64)
  }

  /** The scalar value must need that many bytes: the shortest form is the only one, and surrogates have none. */
  predicate Shortest(n: int, length: nat) {
    match length
    case 1 => 0 <= n < 0x80
    case 2 => 0x80 <= n < 0x800
    case 3 => 0x800 <= n < 0xD800 || 0xE000 <= n < 0x1_0000
    case _ => 0x1_0000 <= n < 0x11_0000
  }

  /** What a reader makes of the bytes: the scalar values, or nothing if they are not in this form. */
  function Decode(bytes: seq<Byte>): Option<seq<int>>
    decreases |bytes|
  {
    if bytes == [] then Some([])
    else
      var length := Announced(bytes[0]);
      if length == 0 || length > |bytes| then None
      else
        var n := Bits(bytes[..length]);
        if !Shortest(n, length) || exists i :: 0 < i < length && !Continuation(bytes[i]) then None
        else
          match Decode(bytes[length..])
          case None => None
          case Some(rest) => Some([n] + rest)
  }

  lemma Utf8ReadsBack(c: char)
    ensures var bytes := Utf8(c);
      Announced(bytes[0]) == |bytes| && Bits(bytes) == c as int && Shortest(c as int, |bytes|)
  {
    var n := c as int;
    LowBits(n);
    if n < 0x80 {
    } else if n < 0x800 {
      TwoBytes(n / 64, n % 64);
    } else if n < 0x1_0000 {
      ThreeBytes(n / 4096, n / 64 % 64, n % 64);
    } else {
      FourBytes(n / 26_2144, n / 4096 % 64, n / 64 % 64, n % 64);
    }
  }

  lemma TwoBytes(a: int, b: int)
    requires 2 <= a < 32 && 0 <= b < 64
    ensures Announced(0xC0 + a) == 2 && Bits([0xC0 + a, 0x80 + b]) == a * 64 + b
  {
  }

  lemma ThreeBytes(a: int, b: int, c: int)
    requires 0 <= a < 16 && 0 <= b < 64 && 0 <= c < 64
    ensures Announced(0xE0 + a) == 3 && Bits([0xE0 + a, 0x80 + b, 0x80 + c]) == a * 4096 + b * 64 + c
  {
  }

  lemma FourBytes(a: int, b: int, c: int, d: int)
    requires 0 <= a < 8 && 0 <= b < 64 && 0 <= c < 64 && 0 <= d < 64
    ensures Announced(0xF0 + a) == 4
    ensures Bits([0xF0 + a, 0x80 + b, 0x80 + c, 0x80 + d]) == a * 26_2144 + b * 4096 + c * 64 + d
  {
  }

  /** Six bits at a time, and what is left of them. */
  lemma LowBits(n: int)
    requires n >= 0
    ensures n == n / 64 * 64 + n % 64
    ensures n / 64 == n / 4096 * 64 + n / 64 % 64
    ensures n / 4096 == n / 26_2144 * 64 + n / 4096 % 64
  {
    assert n / 64 / 64 == n / 4096 && n / 4096 / 64 == n / 26_2144;
  }

  /** A reader gets back exactly the scalar values of the text. */
  lemma {:induction false} EncodingReadsBack(text: string)
    ensures Decode(Encode(text)) == Some(seq(|text|, i requires 0 <= i < |text| => text[i] as int))
  {
    var scalars := seq(|text|, i requires 0 <= i < |text| => text[i] as int);
    if text == "" {
      assert scalars == [];
    } else {
      var first, rest := Utf8(text[0]), text[1..];
      Utf8ReadsBack(text[0]);
      EncodingReadsBack(rest);
      assert Encode(text) == first + Encode(rest);
      assert (first + Encode(rest))[..|first|] == first && (first + Encode(rest))[|first|..] == Encode(rest);
      assert scalars == [text[0] as int] + seq(|rest|, i requires 0 <= i < |rest| => rest[i] as int);
    }
  }

  lemma Peel(q: int, r: int)
    requires 0 <= r < 64
    ensures (q * 64 + r) / 64 == q && (q * 64 + r) % 64 == r
  {
  }

  lemma LowOfContinuation(y: int)
    requires 0x80 <= y < 0xC0
    ensures Low(y, 64) == y - 0x80
  {
  }

  lemma LowOfLead(x: int)
    ensures 0xC0 <= x < 0xE0 ==> Low(x, 32) == x - 0xC0
    ensures 0xE0 <= x < 0xF0 ==> Low(x, 16) == x - 0xE0
    ensures 0xF0 <= x < 0xF8 ==> Low(x, 8) == x - 0xF0
  {
  }

  lemma DivideTwice(n: int)
    requires n >= 0
    ensures n / 4096 == n / 64 / 64 && n / 26_2144 == n / 64 / 64 / 64
  {
  }

  /** Six bits taken off the end, and off what is left, and so on. */
  lemma ThreeParts(a: int, b: int, c: int)
    requires 0 <= a && 0 <= b < 64 && 0 <= c < 64
    ensures var n := a * 4096 + b * 64 + c; n / 4096 == a && n / 64 % 64 == b && n % 64 == c
  {
    var n := a * 4096 + b * 64 + c;
    Peel(a * 64 + b, c);
    Peel(a, b);
    assert n == (a * 64 + b) * 64 + c;
    DivideTwice(n);
  }

  lemma FourParts(a: int, b: int, c: int, d: int)
    requires 0 <= a && 0 <= b < 64 && 0 <= c < 64 && 0 <= d < 64
    ensures var n := a * 26_2144 + b * 4096 + c * 64 + d;
      n / 26_2144 == a && n / 4096 % 64 == b && n / 64 % 64 == c && n % 64 == d
  {
    var n := a * 26_2144 + b * 4096 + c * 64 + d;
    var m := a * 4096 + b * 64 + c;
    Peel(m, d);
    Peel(a * 64 + b, c);
    Peel(a, b);
    assert n == m * 64 + d && m == (a * 64 + b) * 64 + c;
    DivideTwice(n);
  }

  /** One scalar value can be read from these bytes. */
  predicate Readable(bytes: seq<Byte>) {
    && 1 <= |bytes| <= 4 && Announced(bytes[0]) == |bytes|
    && Shortest(Bits(bytes), |bytes|) && forall i :: 0 < i < |bytes| ==> Continuation(bytes[i])
  }

  lemma ReadableIsUtf8(bytes: seq<Byte>)
    requires Readable(bytes)
    ensures Utf8(Bits(bytes) as char) == bytes
  {
    LowOfLead(bytes[0]);
    if |bytes| == 2 {
      LowOfContinuation(bytes[1]);
      Peel(bytes[0] as int - 0xC0, bytes[1] as int - 0x80);
    } else if |bytes| == 3 {
      LowOfContinuation(bytes[1]);
      LowOfContinuation(bytes[2]);
      ThreeParts(bytes[0] as int - 0xE0, bytes[1] as int - 0x80, bytes[2] as int - 0x80);
    } else if |bytes| == 4 {
      LowOfContinuation(bytes[1]);
      LowOfContinuation(bytes[2]);
      LowOfContinuation(bytes[3]);
      FourParts(bytes[0] as int - 0xF0, bytes[1] as int - 0x80, bytes[2] as int - 0x80, bytes[3] as int - 0x80);
    }
  }

  /** And nothing but encoded text can be read. */
  lemma {:induction false} OnlyTextIsRead(bytes: seq<Byte>) returns (text: string)
    requires Decode(bytes).Some?
    ensures Encode(text) == bytes
    decreases |bytes|
  {
    text := "";
    if bytes != [] {
      var length, c := FirstIsReadable(bytes);
      var rest := OnlyTextIsRead(bytes[length..]);
      text := [c] + rest;
      EncodeCons(c, rest);
      assert bytes == bytes[..length] + bytes[length..];
    }
  }

  lemma FirstIsReadable(bytes: seq<Byte>) returns (length: nat, c: char)
    requires bytes != [] && Decode(bytes).Some?
    ensures 0 < length <= |bytes| && Utf8(c) == bytes[..length] && Decode(bytes[length..]).Some?
  {
    length := Announced(bytes[0]);
    FirstOfDecoded(bytes);
    ReadableIsUtf8(bytes[..length]);
    c := Bits(bytes[..length]) as char;
  }

  lemma FirstOfDecoded(bytes: seq<Byte>)
    requires bytes != [] && Decode(bytes).Some?
    ensures var length := Announced(bytes[0]);
      0 < length <= |bytes| && Readable(bytes[..length]) && Decode(bytes[length..]).Some?
  {
  }

  lemma EncodeCons(c: char, rest: string)
    ensures Encode([c] + rest) == Utf8(c) + Encode(rest)
  {
    assert ([c] + rest)[1..] == rest;
  }

  function Size(text: string): nat { |Encode(text)| }

  lemma {:induction false} EncodeConcat(s: string, t: string)
    ensures Encode(s + t) == Encode(s) + Encode(t)
  {
    if s == "" {
      assert s + t == t;
    } else {
      EncodeConcat(s[1..], t);
      assert (s + t)[0] == s[0] && (s + t)[1..] == s[1..] + t;
      BytesRegroup(Utf8(s[0]), Encode(s[1..]), Encode(t));
    }
  }

  lemma BytesRegroup(a: seq<Byte>, b: seq<Byte>, c: seq<Byte>)
    ensures a + (b + c) == (a + b) + c
  {
  }

  lemma SizeSnoc(text: string, i: nat)
    requires i < |text|
    ensures Size(text[..i + 1]) == Size(text[..i]) + |Utf8(text[i])|
  {
    assert text[..i + 1] == text[..i] + [text[i]];
    EncodeConcat(text[..i], [text[i]]);
  }

  lemma SizeOfPrefix(p: string, q: string)
    requires p <= q
    ensures Size(p) <= Size(q) && Encode(p) <= Encode(q) && (p != q ==> Size(p) < Size(q))
  {
    assert q == p + q[|p|..];
    EncodeConcat(p, q[|p|..]);
  }

  // ---- the longest code-point prefix that fits ----

  ghost predicate LongestFit(text: string, max: int, p: string) {
    && p <= text && (p != "" ==> Size(p) <= max)
    && (p != text ==> Size(text[..|p| + 1]) > max)
  }

  /** No longer prefix fits, and there is no other such prefix. */
  lemma LongestFitIsLongest(text: string, max: int, p: string, q: string)
    requires LongestFit(text, max, p) && q <= text
    ensures Size(q) <= max ==> |q| <= |p|
    ensures LongestFit(text, max, q) ==> q == p
  {
    if |p| < |q| {
      SizeOfPrefix(text[..|p| + 1], q);
    } else if |q| < |p| {
      SizeOfPrefix(text[..|q| + 1], p);
    }
  }

  /** The cut never splits a code point, and every later cut within the limit would. */
  lemma {:induction false} CutsBeforeALeadByte(text: string, k: nat)
    requires k < Size(text)
    ensures !Continuation(Encode(text)[k]) <==> exists n: nat :: n < |text| && k == Size(text[..n])
  {
    var first, rest := Utf8(text[0]), text[1..];
    assert Encode(text) == first + Encode(rest);
    if k < |first| {
      assert text[..0] == "";
      forall n: nat | 0 < n < |text| ensures Size(text[..n]) >= |first| {
        assert text[..n][0] == text[0];
      }
    } else {
      CutsBeforeALeadByte(rest, k - |first|);
      forall n: nat | n < |rest| ensures Size(text[..n + 1]) == |first| + Size(rest[..n]) {
        assert text[..n + 1] == [text[0]] + rest[..n];
      }
      if n: nat :| n < |text| && k == Size(text[..n]) {
        assert n > 0;
        assert k - |first| == Size(rest[..n - 1]);
      }
      if n: nat :| n < |rest| && k - |first| == Size(rest[..n]) {
        assert k == Size(text[..n + 1]);
      }
    }
  }

  lemma LongestFitInBytes(text: string, max: int, p: string)
    requires LongestFit(text, max, p)
    ensures Encode(p) <= Encode(text)
    ensures Size(p) < Size(text) ==> !Continuation(Encode(text)[Size(p)])
    ensures forall k :: Size(p) < k <= max && k < Size(text) ==> Continuation(Encode(text)[k])
  {
    SizeOfPrefix(p, text);
    if Size(p) < Size(text) {
      assert text[..|p|] == p;
      CutsBeforeALeadByte(text, Size(p));
    }
    forall k | Size(p) < k <= max && k < Size(text) ensures Continuation(Encode(text)[k]) {
      CutsBeforeALeadByte(text, k);
      forall n: nat | n < |text| && k == Size(text[..n]) ensures false {
        LongestFitIsLongest(text, max, p, text[..n]);
        SizeOfPrefix(text[..n], p);
      }
    }
  }

  /** Cutting piece by piece is cutting the whole: what fits of the next piece continues what fitted so far. */
  lemma FitContinues(done: string, delta: string, max: int, p: string)
    requires Size(done) <= max && LongestFit(delta, max - Size(done), p)
    ensures LongestFit(done + delta, max, done + p)
    ensures Size(done + p) == Size(done) + Size(p)
  {
    EncodeConcat(done, p);
    assert done + p <= done + delta;
    if p != delta {
      assert (done + delta)[..|done + p| + 1] == done + delta[..|p| + 1];
      EncodeConcat(done, delta[..|p| + 1]);
    } else {
      assert done + p == done + delta;
    }
  }

  /** Once a piece was cut, nothing that comes later belongs to the prefix. */
  lemma FitIsFinal(text: string, more: string, max: int, p: string)
    requires LongestFit(text, max, p) && p != text
    ensures LongestFit(text + more, max, p)
  {
    assert (text + more)[..|p| + 1] == text[..|p| + 1];
  }

  method CodepointPrefix(text: string, maxBytes: int) returns (p: string)
    ensures LongestFit(text, maxBytes, p)
  {
    var budget := maxBytes;
    p := "";
    for i := 0 to |text|
      invariant p == text[..i] && budget == maxBytes - Size(p) && (p != "" ==> budget >= 0)
    {
      SizeSnoc(text, i);
      var size := |Utf8(text[i])|;
      if size > budget { return; }
      p := p + [text[i]];
      budget := budget - size;
    }
  }

  // ---- tool output ----

  const MARKER := "\n[truncated by runtime]"

  predicate Ascii(s: string) { forall i :: 0 <= i < |s| ==> s[i] as int < 0x80 }

  lemma {:induction false} AsciiSize(s: string)
    requires Ascii(s)
    ensures Size(s) == |s|
  {
    if s != "" {
      AsciiSize(s[1..]);
    }
  }

  /** The slice `s[:k]`, which counts from the end when `k` is negative. */
  function SliceTo(s: string, k: int): string {
    if k >= |s| then s else if k >= 0 then s[..k] else if -k >= |s| then "" else s[..|s| + k]
  }

  /** Text that fits is left alone; otherwise what is kept in front of the marker is the longest prefix that leaves
      room for it, or the marker alone is cut when there is no room for text. */
  ghost predicate Truncation(text: string, marker: string, maxBytes: int, out: string, truncated: bool) {
    && (truncated <==> Size(text) > maxBytes)
    && (!truncated ==> out == text)
    && (truncated && maxBytes > |marker| ==>
          |out| >= |marker| && out[|out| - |marker|..] == marker &&
          LongestFit(text, maxBytes - |marker|, out[..|out| - |marker|]))
    && (truncated && maxBytes <= |marker| ==> out == SliceTo(marker, maxBytes))
  }

  method TruncateWith(text: string, marker: string, maxBytes: int) returns (out: string, truncated: bool)
    requires Ascii(marker)
    ensures Truncation(text, marker, maxBytes, out, truncated)
  {
    if Size(text) <= maxBytes { return text, false; }
    AsciiSize(marker);
    var budget := maxBytes - Size(marker);
    if budget <= 0 { return SliceTo(marker, maxBytes), true; }
    var kept := CodepointPrefix(text, budget);
    out, truncated := kept + marker, true;
    assert out[..|out| - |marker|] == kept;
  }

  /** The output, marker included, fits exactly when the limit is not negative. */
  lemma TruncationFits(text: string, marker: string, maxBytes: int, out: string, truncated: bool)
    requires Ascii(marker) && Truncation(text, marker, maxBytes, out, truncated)
    ensures Size(out) <= maxBytes <==> maxBytes >= 0
  {
    if truncated && maxBytes > |marker| {
      var kept := out[..|out| - |marker|];
      assert out == kept + marker;
      EncodeConcat(kept, marker);
      AsciiSize(marker);
    } else if truncated {
      AsciiSize(SliceTo(marker, maxBytes));
    }
  }

  lemma MarkerIsAscii()
    ensures Ascii(MARKER)
  {
  }

  method TruncateCodepointSafe(text: string, maxBytes: int) returns (out: string, truncated: bool)
    ensures Truncation(text, MARKER, maxBytes, out, truncated)
    ensures Size(out) <= maxBytes <==> maxBytes >= 0
  {
    MarkerIsAscii();
    out, truncated := TruncateWith(text, MARKER, maxBytes);
    TruncationFits(text, MARKER, maxBytes, out, truncated);
  }

  // ---- one run ----

  datatype Usage = Usage(input: int, output: int)

  /** What one model event brings: reported usage, if any, and pieces of text. */
  datatype Event = Event(usage: Option<Usage>, parts: seq<string>)

  function Joined(parts: seq<string>): string {
    if parts == [] then "" else Joined(parts[..|parts| - 1]) + parts[|parts| - 1]
  }

  function Text(events: seq<Event>): string {
    if events == [] then "" else Text(events[..|events| - 1]) + Joined(events[|events| - 1].parts)
  }

  function Tokens(events: seq<Event>): int {
    if events == [] then 0 else Tokens(events[..|events| - 1]) + Reported(events[|events| - 1])
  }

  function Reported(event: Event): int {
    if event.usage.Some? then event.usage.value.input + event.usage.value.output else 0
  }

  lemma JoinedPush(out: seq<string>, s: string)
    ensures Joined(out + [s]) == Joined(out) + s
  {
    assert (out + [s])[..|out|] == out;
  }

  lemma TextPush(events: seq<Event>, e: Event)
    ensures Text(events + [e]) == Text(events) + Joined(e.parts)
    ensures Tokens(events + [e]) == Tokens(events) + Reported(e)
  {
    assert (events + [e])[..|events|] == events;
  }

  lemma {:induction false} JoinedConcat(s: seq<string>, t: seq<string>)
    ensures Joined(s + t) == Joined(s) + Joined(t)
    decreases |t|
  {
    if t == [] {
      assert s + t == s;
    } else {
      var n := |t| - 1;
      JoinedConcat(s, t[..n]);
      assert s + t == (s + t[..n]) + [t[n]] && t == t[..n] + [t[n]];
      JoinedPush(s + t[..n], t[n]);
      JoinedPush(t[..n], t[n]);
    }
  }

  lemma {:induction false} TextConcat(s: seq<Event>, t: seq<Event>)
    ensures Text(s + t) == Text(s) + Text(t)
    decreases |t|
  {
    if t == [] {
      assert s + t == s;
    } else {
      var n := |t| - 1;
      TextConcat(s, t[..n]);
      assert s + t == (s + t[..n]) + [t[n]] && t == t[..n] + [t[n]];
      TextPush(s + t[..n], t[n]);
      TextPush(t[..n], t[n]);
    }
  }

  lemma JoinedSnoc(parts: seq<string>, i: nat)
    requires i < |parts|
    ensures Joined(parts[..i + 1]) == Joined(parts[..i]) + parts[i]
  {
    assert parts[..i + 1][..i] == parts[..i];
  }

  predicate NoneEmpty(out: seq<string>) { forall i :: 0 <= i < |out| ==> |out[i]| > 0 }

  lemma NoneEmptyConcat(s: seq<string>, t: seq<string>)
    requires NoneEmpty(s) && NoneEmpty(t)
    ensures NoneEmpty(s + t)
  {
  }

  lemma EventSnoc(events: seq<Event>, n: nat)
    requires n < |events|
    ensures Text(events[..n + 1]) == Text(events[..n]) + Joined(events[n].parts)
    ensures Tokens(events[..n + 1]) == Tokens(events[..n]) + Reported(events[n])
  {
    assert events[..n + 1][..n] == events[..n];
  }

  lemma WholeOrCut(text: string, max: nat, p: string)
    requires LongestFit(text, max, p)
    ensures p == text <==> Size(text) <= max
  {
    if p != text {
      SizeOfPrefix(text[..|p| + 1], text);
    }
  }

  /** A piece that fitted, and a piece that was cut, as seen from the whole text. */
  lemma WholePiece(done: string, piece: string, max: nat)
    requires Size(done) <= max && LongestFit(piece, max - Size(done), piece)
    ensures Size(done + piece) == Size(done) + Size(piece) <= max
  {
    EncodeConcat(done, piece);
  }

  lemma CutWhole(before: string, done: string, piece: string, rest: string, max: nat, allowed: string)
    requires Size(before + done) <= max && LongestFit(piece, max - Size(before + done), allowed) && allowed != piece
    ensures LongestFit(before + (done + piece + rest), max, before + (done + allowed))
    ensures |done + allowed| < |done + piece + rest|
  {
    FitContinues(before + done, piece, max, allowed);
    FitIsFinal(before + done + piece, rest, max, before + done + allowed);
    assert before + (done + piece + rest) == before + done + piece + rest;
    assert before + (done + allowed) == before + done + allowed;
  }

  lemma JoinedSplit(parts: seq<string>, i: nat)
    requires i < |parts|
    ensures Joined(parts) == Joined(parts[..i]) + parts[i] + Joined(parts[i + 1..])
  {
    var head, tail := parts[..i + 1], parts[i + 1..];
    assert head + tail == parts;
    assert Joined(head) == Joined(parts[..i]) + parts[i] by { JoinedSnoc(parts, i); }
    assert Joined(head + tail) == Joined(head) + Joined(tail) by { JoinedConcat(head, tail); }
  }

  lemma CutPiece(before: string, parts: seq<string>, i: nat, max: nat, allowed: string)
    requires i < |parts| && Size(before + Joined(parts[..i])) <= max
    requires LongestFit(parts[i], max - Size(before + Joined(parts[..i])), allowed) && allowed != parts[i]
    ensures LongestFit(before + Joined(parts), max, before + (Joined(parts[..i]) + allowed))
    ensures |Joined(parts[..i]) + allowed| < |Joined(parts)|
  {
    JoinedSplit(parts, i);
    CutWhole(before, Joined(parts[..i]), parts[i], Joined(parts[i + 1..]), max, allowed);
  }

  /** What the pieces given out come to after one more. */
  lemma PieceTaken(parts: seq<string>, i: nat, out: seq<string>, allowed: string)
    requires i < |parts| && NoneEmpty(out) && Joined(out) == Joined(parts[..i])
    ensures var out' := if allowed != "" then out + [allowed] else out;
      NoneEmpty(out') && Joined(out') == Joined(parts[..i]) + allowed
  {
    JoinedPush(out, allowed);
  }

  lemma WholePieceTaken(before: string, parts: seq<string>, i: nat, max: nat)
    requires i < |parts| && Size(before + Joined(parts[..i])) <= max
    requires LongestFit(parts[i], max - Size(before + Joined(parts[..i])), parts[i])
    ensures Size(before + Joined(parts[..i + 1])) == Size(before + Joined(parts[..i])) + Size(parts[i]) <= max
  {
    WholePiece(before + Joined(parts[..i]), parts[i], max);
    TextRegroup(before, Joined(parts[..i]), parts[i]);
    assert Joined(parts[..i + 1]) == Joined(parts[..i]) + parts[i] by { JoinedSnoc(parts, i); }
  }

  lemma TextRegroup(a: string, b: string, c: string)
    ensures a + (b + c) == a + b + c
  {
  }

  lemma OneMoreEvent(events: seq<Event>, n: nat, out: seq<string>, more: seq<string>, max: nat, hit: bool)
    requires n < |events| && NoneEmpty(out) && NoneEmpty(more) && Joined(out) == Text(events[..n])
    requires LongestFit(Text(events[..n]) + Joined(events[n].parts), max, Text(events[..n]) + Joined(more))
    requires hit <==> Size(Text(events[..n]) + Joined(events[n].parts)) > max
    requires !hit ==> Joined(more) == Joined(events[n].parts)
    ensures NoneEmpty(out + more) && LongestFit(Text(events[..n + 1]), max, Joined(out + more))
    ensures hit <==> Size(Text(events[..n + 1])) > max
    ensures !hit ==> Joined(out + more) == Text(events[..n + 1]) == Text(events[..n]) + Joined(events[n].parts)
    ensures Tokens(events[..n + 1]) == Tokens(events[..n]) + Reported(events[n])
  {
    EventSnoc(events, n);
    NoneEmptyConcat(out, more);
    JoinedConcat(out, more);
  }

  class RunLimiter {
    const maxOutputBytes: nat
    const tokenBudget: int
    var inputTokens: int
    var outputTokens: int
    var estimated: bool
    var outputBytes: nat
    var outputLimitHit: bool
    var budgetExceeded: bool

    constructor (maxOutputBytes: nat, tokenBudget: int)
      ensures this.maxOutputBytes == maxOutputBytes && this.tokenBudget == tokenBudget
      ensures outputBytes == 0 && inputTokens + outputTokens == 0 && !estimated && !outputLimitHit && !budgetExceeded
    {
      this.maxOutputBytes, this.tokenBudget := maxOutputBytes, tokenBudget;
      inputTokens, outputTokens, outputBytes := 0, 0, 0;
      estimated, outputLimitHit, budgetExceeded := false, false, false;
    }

    method ReserveOutput(delta: string) returns (allowed: string)
      modifies `outputBytes, `outputLimitHit
      ensures LongestFit(delta, maxOutputBytes - old(outputBytes), allowed)
      ensures outputBytes == old(outputBytes) + Size(allowed)
      ensures outputLimitHit <==> old(outputLimitHit) || old(outputBytes) >= maxOutputBytes || allowed != delta
    {
      var room := maxOutputBytes - outputBytes;
      if room <= 0 {
        outputLimitHit := true;
        if delta != "" { SizeSnoc(delta, 0); }
        return "";
      }
      if Size(delta) <= room {
        outputBytes := outputBytes + Size(delta);
        return delta;
      }
      allowed := CodepointPrefix(delta, room);
      outputBytes := outputBytes + Size(allowed);
      outputLimitHit := true;
    }

    /** The token account, and the mark that is set once the total has passed the budget. */
    method ObserveUsage(usage: Option<Usage>)
      modifies `inputTokens, `outputTokens, `estimated, `budgetExceeded
      ensures inputTokens + outputTokens == old(inputTokens + outputTokens) + Reported(Event(usage, []))
      ensures estimated <==> old(estimated) || usage.None?
      ensures budgetExceeded <==> old(budgetExceeded) || (tokenBudget > 0 && inputTokens + outputTokens > tokenBudget)
    {
      if usage.None? {
        estimated := true;
      } else {
        inputTokens := inputTokens + usage.value.input;
        outputTokens := outputTokens + usage.value.output;
      }
      if tokenBudget > 0 && inputTokens + outputTokens > tokenBudget {
        budgetExceeded := true;
      }
    }

    predicate CanStartAnotherCall()
      reads this
    {
      !budgetExceeded && !outputLimitHit && !(tokenBudget > 0 && inputTokens + outputTokens >= tokenBudget)
    }

    /** Nothing was cut yet, and the bytes counted are those of the text given out. */
    ghost predicate GivenOut(text: string)
      reads this
    {
      !outputLimitHit && outputBytes == Size(text) <= maxOutputBytes
    }

    /** The text of one event: empty pieces are skipped, and the first cut ends it. */
    method ConvertText(parts: seq<string>, ghost before: string) returns (out: seq<string>)
      requires GivenOut(before)
      modifies `outputBytes, `outputLimitHit
      ensures NoneEmpty(out)
      ensures LongestFit(before + Joined(parts), maxOutputBytes, before + Joined(out))
      ensures !outputLimitHit ==> Joined(out) == Joined(parts) && GivenOut(before + Joined(parts))
      ensures outputLimitHit ==> |Joined(out)| < |Joined(parts)|
    {
      out := [];
      assert before + "" == before;
      for i := 0 to |parts|
        invariant NoneEmpty(out) && Joined(out) == Joined(parts[..i])
        invariant GivenOut(before + Joined(parts[..i]))
      {
        JoinedSnoc(parts, i);
        if parts[i] != "" {
          var allowed := ReserveOutput(parts[i]);
          PieceTaken(parts, i, out, allowed);
          if allowed == parts[i] {
            WholePieceTaken(before, parts, i, maxOutputBytes);
          } else {
            CutPiece(before, parts, i, maxOutputBytes, allowed);
          }
          if allowed != "" {
            out := out + [allowed];
          }
        }
        if outputLimitHit { return; }
      }
      assert parts[..|parts|] == parts;
    }

    /** One event: its usage first, then its text. */
    method Convert(event: Event, ghost before: string) returns (out: seq<string>)
      requires GivenOut(before)
      modifies `inputTokens, `outputTokens, `estimated, `budgetExceeded, `outputBytes, `outputLimitHit
      ensures NoneEmpty(out)
      ensures LongestFit(before + Joined(event.parts), maxOutputBytes, before + Joined(out))
      ensures outputLimitHit <==> Size(before + Joined(event.parts)) > maxOutputBytes
      ensures !outputLimitHit ==> Joined(out) == Joined(event.parts)
      ensures !outputLimitHit ==> outputBytes == Size(before + Joined(event.parts))
      ensures inputTokens + outputTokens == old(inputTokens + outputTokens) + Reported(event)
      ensures budgetExceeded <==> old(budgetExceeded) || (tokenBudget > 0 && inputTokens + outputTokens > tokenBudget)
    {
      ObserveUsage(event.usage);
      out := ConvertText(event.parts, before);
      assert outputLimitHit ==> |before + Joined(out)| < |before + Joined(event.parts)|;
      WholeOrCut(before + Joined(event.parts), maxOutputBytes, before + Joined(out));
    }

    /** The run of one request. When no token budget is set, what is given out is the longest prefix of all the text the
        model had to offer. */
    method Run(events: seq<Event>) returns (out: seq<string>, n: nat)
      requires outputBytes == 0 && inputTokens + outputTokens == 0 && !outputLimitHit && !budgetExceeded
      modifies `inputTokens, `outputTokens, `estimated, `budgetExceeded, `outputBytes, `outputLimitHit
      ensures n <= |events| && NoneEmpty(out)
      ensures LongestFit(Text(events[..n]), maxOutputBytes, Joined(out))
      ensures tokenBudget <= 0 ==> LongestFit(Text(events), maxOutputBytes, Joined(out))
      ensures outputLimitHit <==> Size(Text(events[..n])) > maxOutputBytes
      ensures n == UsedFrom(Stops(events, maxOutputBytes, tokenBudget), 0)
      ensures forall i :: 0 < i < n ==> WithinLimits(events, i, maxOutputBytes, tokenBudget)
      ensures n < |events| ==> !WithinLimits(events, n, maxOutputBytes, tokenBudget)
      ensures events != [] ==> n > 0
      ensures budgetExceeded <==> n > 0 && tokenBudget > 0 && Tokens(events[..n]) > tokenBudget
    {
      out, n := UseEvents(events);
      StopsAtTheFirst(events, n, maxOutputBytes, tokenBudget);
      if tokenBudget <= 0 {
        RunGivesLongestPrefix(events, n, maxOutputBytes, tokenBudget, Joined(out));
      }
    }

    /** Event by event, until the first cut or until no further model call may start. */
    method UseEvents(events: seq<Event>) returns (out: seq<string>, n: nat)
      requires outputBytes == 0 && inputTokens + outputTokens == 0 && !outputLimitHit && !budgetExceeded
      modifies `inputTokens, `outputTokens, `estimated, `budgetExceeded, `outputBytes, `outputLimitHit
      ensures n <= |events| && NoneEmpty(out)
      ensures LongestFit(Text(events[..n]), maxOutputBytes, Joined(out))
      ensures outputLimitHit <==> Size(Text(events[..n])) > maxOutputBytes
      ensures n == UsedFrom(Stops(events, maxOutputBytes, tokenBudget), 0)
      ensures budgetExceeded <==> n > 0 && tokenBudget > 0 && Tokens(events[..n]) > tokenBudget
    {
      out, n := [], 0;
      ghost var stops := Stops(events, maxOutputBytes, tokenBudget);
      assert events[..0] == [];
      while n < |events|
        invariant n <= |events| && NoneEmpty(out) && Joined(out) == Text(events[..n])
        invariant GivenOut(Text(events[..n])) && inputTokens + outputTokens == Tokens(events[..n])
        invariant !budgetExceeded && (n > 0 && tokenBudget > 0 ==> Tokens(events[..n]) < tokenBudget)
        invariant UsedFrom(stops, n) == UsedFrom(stops, 0)
      {
        var more := Convert(events[n], Text(events[..n]));
        OneMoreEvent(events, n, out, more, maxOutputBytes, outputLimitHit);
        out := out + more;
        n := n + 1;
        assert stops[n - 1] == StopsAfter(events, n, maxOutputBytes, tokenBudget);
        if outputLimitHit || !CanStartAnotherCall() { return; }
      }
    }
  }

  /** Where a run stops: the text no longer fits, or the budget is used up. */
  ghost predicate StopsAfter(events: seq<Event>, n: nat, maxOutputBytes: nat, tokenBudget: int)
    requires n <= |events|
  {
    Size(Text(events[..n])) > maxOutputBytes || (tokenBudget > 0 && Tokens(events[..n]) >= tokenBudget)
  }

  ghost function Stops(events: seq<Event>, maxOutputBytes: nat, tokenBudget: int): seq<bool> {
    seq(|events|, i requires 0 <= i < |events| => StopsAfter(events, i + 1, maxOutputBytes, tokenBudget))
  }

  /** How many events are used, once `n` are: up to the first to stop after, or all. */
  function UsedFrom(stops: seq<bool>, n: nat): nat
    requires n <= |stops|
    decreases |stops| - n
  {
    if n == |stops| then n else if stops[n] then n + 1 else UsedFrom(stops, n + 1)
  }

  lemma {:induction false} UsedUpToTheFirstStop(stops: seq<bool>, n: nat)
    requires n <= |stops|
    ensures var used := UsedFrom(stops, n);
      && n <= used <= |stops|
      && (forall i :: n <= i < used - 1 ==> !stops[i])
      && (n < used < |stops| ==> stops[used - 1])
      && (n < |stops| ==> n < used)
    decreases |stops| - n
  {
    if n < |stops| && !stops[n] {
      UsedUpToTheFirstStop(stops, n + 1);
    }
  }

  /** The text so far fits whole, and tokens are left for another call. */
  ghost predicate WithinLimits(events: seq<Event>, n: nat, maxOutputBytes: nat, tokenBudget: int)
    requires n <= |events|
  {
    Size(Text(events[..n])) <= maxOutputBytes && (tokenBudget <= 0 || Tokens(events[..n]) < tokenBudget)
  }

  lemma StopsAtTheFirst(events: seq<Event>, n: nat, max: nat, tokenBudget: int)
    requires n == UsedFrom(Stops(events, max, tokenBudget), 0) && n <= |events|
    ensures forall i :: 0 < i < n ==> WithinLimits(events, i, max, tokenBudget)
    ensures n < |events| ==> !WithinLimits(events, n, max, tokenBudget)
    ensures events != [] ==> n > 0
  {
    UsedUpToTheFirstStop(Stops(events, max, tokenBudget), 0);
    FirstStop(events, n, max, tokenBudget);
  }

  lemma StopIsLimit(events: seq<Event>, i: nat, max: nat, tokenBudget: int)
    requires 0 < i <= |events|
    ensures Stops(events, max, tokenBudget)[i - 1] <==> !WithinLimits(events, i, max, tokenBudget)
  {
    assert Stops(events, max, tokenBudget)[i - 1] == StopsAfter(events, i, max, tokenBudget);
  }

  lemma FirstStop(events: seq<Event>, n: nat, max: nat, tokenBudget: int)
    requires n <= |events| && (n < |events| && n > 0 ==> Stops(events, max, tokenBudget)[n - 1])
    requires forall i :: 0 <= i < n - 1 ==> !Stops(events, max, tokenBudget)[i]
    ensures forall i :: 0 < i < n ==> WithinLimits(events, i, max, tokenBudget)
    ensures 0 < n < |events| ==> !WithinLimits(events, n, max, tokenBudget)
  {
    forall i | 0 < i < n ensures WithinLimits(events, i, max, tokenBudget) {
      StopIsLimit(events, i, max, tokenBudget);
    }
    if 0 < n < |events| { StopIsLimit(events, n, max, tokenBudget); }
  }

  /** Without a token budget, the text given out is the longest prefix of all the text the model had to offer. */
  lemma RunGivesLongestPrefix(events: seq<Event>, n: nat, max: nat, tokenBudget: int, out: string)
    requires tokenBudget <= 0 && n == UsedFrom(Stops(events, max, tokenBudget), 0)
    requires n <= |events| && LongestFit(Text(events[..n]), max, out)
    ensures LongestFit(Text(events), max, out)
  {
    StoppedWhenFull(events, n, max, tokenBudget);
    SplitEvents(events, n);
    LongestOfAll(events, events[..n], events[n..], max, out);
  }

  lemma StoppedWhenFull(events: seq<Event>, n: nat, max: nat, tokenBudget: int)
    requires tokenBudget <= 0 && n == UsedFrom(Stops(events, max, tokenBudget), 0) && n <= |events|
    ensures n < |events| ==> Size(Text(events[..n])) > max
  {
    StopsAtTheFirst(events, n, max, tokenBudget);
  }

  lemma SplitEvents(events: seq<Event>, n: nat)
    requires n <= |events|
    ensures events[..n] + events[n..] == events && (events[n..] == [] <==> n == |events|)
  {
  }

  lemma LongestOfAll(all: seq<Event>, used: seq<Event>, more: seq<Event>, max: nat, out: string)
    requires all == used + more && LongestFit(Text(used), max, out) && (more != [] ==> Size(Text(used)) > max)
    ensures LongestFit(Text(all), max, out)
  {
    TextConcat(used, more);
    if out != Text(used) {
      FitIsFinal(Text(used), Text(more), max, out);
    } else {
      WholeOrCut(Text(used), max, out);
      assert used + more == used;
    }
  }

  /** What a caller would give out that went on after a cut. */
  lemma GoingOnWouldSkipText()
    ensures LongestFit("\U{e9}", 1, "") && LongestFit("a", 1 - Size(""), "a")
    ensures !LongestFit("\U{e9}" + "a", 1, "" + "a")
  {
    SizeSnoc("\U{e9}", 0);
    SizeSnoc("a", 0);
    assert ("\U{e9}" + "a")[0] != 'a';
  }
}
