/** The names with a tail that vfat_create_shortname tries: what they look like, and that they are different. */
module AliasNames {
  import opened Arithmetic
  import opened FatDefs
  import opened DirSlots
  import opened LongNames
  import opened ShortNames

  // ----- byte by byte -----

  /** Where the loops cut the base it begins with what fits. */
  lemma CutOfBase(nls: DiskCharset, base: seq<Uni>, limit: nat)
    requires limit <= 8
    ensures Fitting(nls, base, limit) <= FirstEight(Flat(nls, base))
  {
    FittingLongest(nls, base, limit, 0);
    var i :| 0 <= i <= |base| && Fitting(nls, base, limit) == Flat(nls, base[..i]);
    FlatPrefix(nls, base, i);
  }

  lemma FormattedAt(base: seq<byte>, ext: seq<byte>, i: nat)
    requires |base| <= 8 && |ext| <= 3 && i < MSDOS_NAME
    ensures Formatted(base, ext)[i] == if i < |base| then base[i] else if i < 8 then SPACE
                                       else if i < 8 + |ext| then ext[i - 8] else SPACE
  {
  }

  lemma PutAt(name: seq<byte>, at: nat, bytes: seq<byte>, i: nat)
    requires at + |bytes| <= |name| && i < |name|
    ensures Put(name, at, bytes)[i] == if at <= i < at + |bytes| then bytes[i - at] else name[i]
  {
  }

  /** The short tail put behind the first at bytes of the base b. */
  lemma DigitBytes(b: seq<byte>, ext: seq<byte>, at: nat, d: nat)
    requires 1 <= d <= 9 && |b| <= 8 && |ext| <= 3 && at <= 6 && at <= |b| && (|b| <= 6 ==> at == |b|)
    ensures var got, want := DigitName(DigitStem(Formatted(b, ext), |b| > 6), at, d),
              Formatted(b[..at] + [TILDE, 0x30 + d], ext);
            && (|b| <= 6 || at >= 5 ==> got == want)
            && (|b| > 6 && at < 5 ==> got[6] == b[6] && want[6] == SPACE)
  {
    hide Put, Formatted;
    var plain, tail := Formatted(b, ext), [TILDE, 0x30 + d];
    var got, want := DigitName(DigitStem(plain, |b| > 6), at, d), Formatted(b[..at] + tail, ext);
    forall i | 0 <= i < MSDOS_NAME
      ensures |b| <= 6 || at >= 5 ==> got[i] == want[i]
      ensures |b| > 6 && at < 5 && i == 6 ==> got[6] == b[6] && want[6] == SPACE
    {
      PutAt(plain, 7, [SPACE], i);
      PutAt(DigitStem(plain, |b| > 6), at, tail, i);
      FormattedAt(b, ext, i);
      FormattedAt(b[..at] + tail, ext, i);
    }
  }

  /** The long tail put behind the first at2 bytes of the base b. When that is none of them, byte 6 still has what the
      base or the short tail left there. */
  lemma TailBytes(b: seq<byte>, ext: seq<byte>, at: nat, at2: nat, jiffies: int, hex: seq<byte>)
    requires |b| <= 8 && |ext| <= 3 && |hex| == 4 && at2 <= 2 && at2 <= at <= 6 && at <= |b|
    requires (|b| <= 6 ==> at == |b|) && (at <= 2 ==> at2 == at > 0)
    ensures var got := Put(TailStem(Formatted(b, ext), |b| > 6, at, at2, jiffies), at2, hex);
            var want := Formatted(b[..at2] + hex + [TILDE, 0x31 + jiffies / 0x1_0000 % 8], ext);
            && (at2 > 0 || |b| <= 4 ==> got == want)
            && (at2 == 0 && |b| > 4 ==>
                  want[6] == SPACE && got[6] == if at == 6 then TILDE else if at == 5 then 0x39 else b[6])
  {
    hide Put, Formatted;
    var plain, tail := Formatted(b, ext), [TILDE, 0x31 + jiffies / 0x1_0000 % 8];
    var stem := DigitStem(plain, |b| > 6);
    var nine := DigitName(stem, at, 9);
    var clear := if at > 2 then Put(nine, 7, [SPACE]) else nine;
    var got, want := Put(TailStem(plain, |b| > 6, at, at2, jiffies), at2, hex), Formatted(b[..at2] + hex + tail, ext);
    forall i | 0 <= i < MSDOS_NAME
      ensures at2 > 0 || |b| <= 4 || i != 6 ==> got[i] == want[i]
      ensures at2 == 0 && |b| > 4 && i == 6 ==>
                want[6] == SPACE && got[6] == if at == 6 then TILDE else if at == 5 then 0x39 else b[6]
    {
      PutAt(plain, 7, [SPACE], i);
      PutAt(stem, at, [TILDE, 0x39], i);
      PutAt(nine, 7, [SPACE], i);
      PutAt(clear, at2 + 4, tail, i);
      PutAt(TailStem(plain, |b| > 6, at, at2, jiffies), at2, hex, i);
      FormattedAt(b, ext, i);
      FormattedAt(b[..at2] + hex + tail, ext, i);
    }
  }

  /** A name with a short tail is the base cut at six bytes, the tail and the extension, unless a character of more
      than two bytes crosses the cut: then bytes of it stay behind the tail. */
  lemma DigitNameIff(nls: DiskCharset, base: seq<Uni>, ext: seq<Uni>, d: nat)
    requires 1 <= d <= 9 && SPACE !in Flat(nls, base)
    ensures ShortTailExact(nls, base, ext, d) <==> |Flat(nls, base)| <= 6 || |Fitting(nls, base, 6)| >= 5
  {
    hide Flat, Fitting, Formatted, DigitName, DigitStem;
    CutOfBase(nls, base, 6);
    CutPositions(nls, base);
    var b, at := FirstEight(Flat(nls, base)), |Fitting(nls, base, 6)|;
    assert b[..at] == Fitting(nls, base, 6);
    EscapedCut(b, at);
    DigitBytes(Escaped(b), Fitting(nls, ext, 3), at, d);
    assert at < 5 && |b| > 6 ==> Escaped(b)[6] == Flat(nls, base)[6];
  }

  lemma EscapedCut(b: seq<byte>, at: nat)
    requires at <= |b|
    ensures Escaped(b[..at]) == Escaped(b)[..at]
  {
  }

  /** What the tail ~d makes of a name: the base cut at six bytes, the tail and the extension. */
  ghost predicate ShortTailExact(nls: DiskCharset, base: seq<Uni>, ext: seq<Uni>, d: nat)
    requires 1 <= d <= 9
  {
    DigitName(DigitStem(PlainName(nls, base, ext), |Flat(nls, base)| > 6), |Fitting(nls, base, 6)|, d)
    == Formatted(Escaped(Fitting(nls, base, 6)) + [TILDE, 0x30 + d], Fitting(nls, ext, 3))
  }

  /** What four digits make of it: the base cut at two bytes, the digits, ~ with the clock, and the extension. */
  ghost predicate LongTailExact(nls: DiskCharset, base: seq<Uni>, ext: seq<Uni>, jiffies: int, t: nat)
    requires t < 0x1_0000
  {
    Put(TailStem(PlainName(nls, base, ext), |Flat(nls, base)| > 6, |Fitting(nls, base, 6)|, |Fitting(nls, base, 2)|,
                 jiffies),
        |Fitting(nls, base, 2)|, Hex4(t))
    == Formatted(Escaped(Fitting(nls, base, 2)) + Hex4(t) + [TILDE, 0x31 + jiffies / 0x1_0000 % 8],
                 Fitting(nls, ext, 3))
  }

  /** A name with a long tail is the cut base, the tail and the extension, unless the first character has more than two
      bytes and the base more than four: then byte 6 still has a byte of the base or of the tail ~9 in it. */
  lemma TailNameIff(nls: DiskCharset, base: seq<Uni>, ext: seq<Uni>, jiffies: int, t: nat)
    requires Sane(nls) && t < 0x1_0000 && Flat(nls, base) != [] && SPACE !in Flat(nls, base)
    ensures LongTailExact(nls, base, ext, jiffies, t) <==> Fitting(nls, base, 2) != [] || |Flat(nls, base)| <= 4
  {
    hide Flat, Fitting, Hex4, Put, Formatted, TailStem, Sane;
    CutOfBase(nls, base, 2);
    CutOfBase(nls, base, 6);
    CutPositions(nls, base);
    FittingGrows(nls, base, 2, 6);
    FittingSome(nls, base);
    var b := FirstEight(Flat(nls, base));
    assert b[..|Fitting(nls, base, 2)|] == Fitting(nls, base, 2);
    EscapedCut(b, |Fitting(nls, base, 2)|);
    TailBytes(Escaped(b), Fitting(nls, ext, 3), |Fitting(nls, base, 6)|, |Fitting(nls, base, 2)|, jiffies, Hex4(t));
    assert |b| > 6 ==> Escaped(b)[6] == b[6] == Flat(nls, base)[6];
  }

  /** No character takes more than six bytes, so one of a base fits into six. */
  lemma {:induction false} FittingSome(nls: DiskCharset, cs: seq<Uni>)
    requires Sane(nls) && Flat(nls, cs) != []
    ensures Fitting(nls, cs, 6) != []
  {
    hide Sane, ShortChar;
    ShortCharSane(nls, cs[|cs| - 1]);
    if |Flat(nls, cs)| > 6 {
      FittingSome(nls, cs[..|cs| - 1]);
    }
  }

  /** No character takes more than two bytes in the alias. */
  ghost predicate AtMostTwo(nls: DiskCharset) {
    forall c :: |nls.uni2char(c)| <= 2
  }

  lemma {:induction false} FittingClose(nls: DiskCharset, cs: seq<Uni>, limit: nat)
    requires AtMostTwo(nls) && 0 < limit
    ensures |Fitting(nls, cs, limit)| >= Min(limit - 1, |Flat(nls, cs)|)
  {
    if |Flat(nls, cs)| > limit {
      var rest, c := cs[..|cs| - 1], cs[|cs| - 1];
      FittingClose(nls, rest, limit);
      assert |nls.uni2char(c)| <= 2;
      assert |ShortChar(nls, c)| <= 2;
    }
  }

  /** With characters of one and two bytes the names are always as meant. */
  lemma TailsExact(nls: DiskCharset, base: seq<Uni>, ext: seq<Uni>, jiffies: int, d: nat, t: nat)
    requires AtMostTwo(nls) && Flat(nls, base) != [] && 1 <= d <= 9 && t < 0x1_0000
    ensures ShortTailExact(nls, base, ext, d) && LongTailExact(nls, base, ext, jiffies, t)
  {
    hide Flat, Fitting, Hex4, Put, Formatted, TailStem, DigitName, DigitStem, AtMostTwo;
    FittingClose(nls, base, 6);
    FittingClose(nls, base, 2);
    CutPositions(nls, base);
    FittingGrows(nls, base, 2, 6);
    CutOfBase(nls, base, 2);
    CutOfBase(nls, base, 6);
    var b, e := FirstEight(Flat(nls, base)), Fitting(nls, ext, 3);
    var at, at2 := |Fitting(nls, base, 6)|, |Fitting(nls, base, 2)|;
    assert b[..at] == Fitting(nls, base, 6) && b[..at2] == Fitting(nls, base, 2);
    EscapedCut(b, at);
    EscapedCut(b, at2);
    DigitBytes(Escaped(b), e, at, d);
    TailBytes(Escaped(b), e, at, at2, jiffies, Hex4(t));
  }

  // ----- two names that do not come out as meant -----

  /** ASCII, and one character of three bytes. */
  function WideCharset(): DiskCharset {
    DiskCharset(c => if 0 < c < 0x80 then [c] else if c == 0x3042 then [0xE3, 0x81, 0x82] else [], b => 0)
  }

  lemma WideBytes()
    ensures Sane(WideCharset())
    ensures ShortChar(WideCharset(), 0x41) == [0x41] && ShortChar(WideCharset(), 0x3042) == [0xE3, 0x81, 0x82]
  {
  }

  lemma FlatMore(nls: DiskCharset, cs: seq<Uni>, c: Uni)
    ensures Flat(nls, cs + [c]) == Flat(nls, cs) + ShortChar(nls, c)
  {
    assert (cs + [c])[..|cs|] == cs;
  }

  lemma FlatEmpty(nls: DiskCharset)
    ensures Flat(nls, []) == [] && Fitting(nls, [], 3) == []
  {
  }

  const LETTERS: seq<Uni> := [0x41, 0x41, 0x41, 0x41]

  lemma FlatLetters()
    ensures Flat(WideCharset(), LETTERS) == [0x41, 0x41, 0x41, 0x41]
  {
    hide Flat, ShortChar, WideCharset;
    var nls := WideCharset();
    WideBytes();
    FlatEmpty(nls);
    FlatMore(nls, [], 0x41);
    FlatMore(nls, [0x41], 0x41);
    FlatMore(nls, [0x41, 0x41], 0x41);
    FlatMore(nls, [0x41, 0x41, 0x41], 0x41);
    assert [] + [0x41] == [0x41] && [0x41] + [0x41] == [0x41, 0x41];
    assert [0x41, 0x41] + [0x41] == [0x41, 0x41, 0x41] && [0x41, 0x41, 0x41] + [0x41] == LETTERS;
  }

  /** A character that goes over the limit is what does not fit. */
  lemma FittingBefore(nls: DiskCharset, cs: seq<Uni>, c: Uni, limit: nat)
    requires |Flat(nls, cs)| <= limit < |Flat(nls, cs + [c])|
    ensures Fitting(nls, cs + [c], limit) == Flat(nls, cs)
  {
    hide Flat;
    assert (cs + [c])[..|cs|] == cs;
  }

  lemma ShortTailBytes()
    ensures DigitName(DigitStem(Formatted([0x41, 0x41, 0x41, 0x41, 0xE3, 0x81, 0x82], []), true), 4, 1)
            == [0x41, 0x41, 0x41, 0x41, TILDE, 0x31, 0x82, SPACE, SPACE, SPACE, SPACE]
  {
  }

  /** Four letters and the wide character: its last byte stays behind the tail ~1. */
  lemma ShortTailExample()
    ensures var nls, base := WideCharset(), LETTERS + [0x3042];
            && Sane(nls) && !ShortTailExact(nls, base, [], 1)
            && |Flat(nls, base)| == 7 && |Fitting(nls, base, 6)| == 4
            && DigitName(DigitStem(PlainName(nls, base, []), true), 4, 1)
               == [0x41, 0x41, 0x41, 0x41, TILDE, 0x31, 0x82, SPACE, SPACE, SPACE, SPACE]
  {
    hide Flat, Fitting, ShortChar, WideCharset, Sane, ShortTailExact, DigitName, DigitStem, Formatted, LETTERS;
    var nls := WideCharset();
    WideBytes();
    FlatEmpty(nls);
    FlatLetters();
    FlatMore(nls, LETTERS, 0x3042);
    FittingBefore(nls, LETTERS, 0x3042, 6);
    var bytes := Flat(nls, LETTERS + [0x3042]);
    assert bytes == [0x41, 0x41, 0x41, 0x41, 0xE3, 0x81, 0x82];
    DigitNameIff(nls, LETTERS + [0x3042], [], 1);
    ShortTailBytes();
  }

  lemma LongTailBytes()
    ensures Hex4(0) == [0x30, 0x30, 0x30, 0x30]
    ensures Put(TailStem(Formatted([0xE3, 0x81, 0x82, 0xE3, 0x81, 0x82], []), false, 6, 0, 0), 0,
                [0x30, 0x30, 0x30, 0x30])
            == [0x30, 0x30, 0x30, 0x30, TILDE, 0x31, TILDE, SPACE, SPACE, SPACE, SPACE]
  {
  }

  /** The wide character twice: the ~ of the tail ~9 stays behind the long tail. */
  lemma LongTailExample()
    ensures var nls, base: seq<Uni> := WideCharset(), [0x3042, 0x3042];
            && Sane(nls) && !LongTailExact(nls, base, [], 0, 0)
            && |Flat(nls, base)| == 6 && |Fitting(nls, base, 6)| == 6 && |Fitting(nls, base, 2)| == 0
            && Put(TailStem(PlainName(nls, base, []), false, 6, 0, 0), 0, Hex4(0))
               == [0x30, 0x30, 0x30, 0x30, TILDE, 0x31, TILDE, SPACE, SPACE, SPACE, SPACE]
  {
    hide Flat, Fitting, ShortChar, WideCharset, Sane, LongTailExact, Put, TailStem, Formatted, Hex4;
    var nls, a: seq<Uni> := WideCharset(), [0x3042];
    WideBytes();
    FlatEmpty(nls);
    FlatMore(nls, [], 0x3042);
    FlatMore(nls, a, 0x3042);
    assert [] + a == a && a + a == [0x3042, 0x3042];
    assert Flat(nls, a + a) == [0xE3, 0x81, 0x82, 0xE3, 0x81, 0x82];
    FittingBefore(nls, [], 0x3042, 2);
    FittingPrefix(nls, a + a, 2, 1);
    assert (a + a)[..1] == a;
    CutPositions(nls, a + a);
    TailNameIff(nls, a + a, [], 0, 0);
    LongTailBytes();
  }

  lemma FittingGrows(nls: DiskCharset, cs: seq<Uni>, less: nat, limit: nat)
    requires less <= limit
    ensures Fitting(nls, cs, less) <= Fitting(nls, cs, limit)
  {
    hide Flat;
    FittingLongest(nls, cs, less, 0);
    var i :| 0 <= i <= |cs| && Fitting(nls, cs, less) == Flat(nls, cs[..i]);
    FittingLongest(nls, cs, limit, i);
  }

  // ----- all the names a search may try -----

  lemma {:induction false} FlatSane(nls: DiskCharset, cs: seq<Uni>)
    requires Sane(nls)
    ensures 0 !in Flat(nls, cs)
  {
    hide Sane, ShortChar;
    if cs != [] {
      FlatSane(nls, cs[..|cs| - 1]);
      ShortCharSane(nls, cs[|cs| - 1]);
    }
  }

  lemma PlainFits(nls: DiskCharset, base: seq<Uni>, ext: seq<Uni>)
    requires Sane(nls) && Flat(nls, base) != []
    ensures Fits(PlainName(nls, base, ext), Fitting(nls, ext, 3))
  {
    hide Flat, Fitting, Sane, Formatted, Fits;
    FlatSane(nls, base);
    FlatSane(nls, ext);
    FittingLongest(nls, ext, 3, 0);
    var i :| 0 <= i <= |ext| && Fitting(nls, ext, 3) == Flat(nls, ext[..i]);
    FlatSane(nls, ext[..i]);
    FormattedUsable(Escaped(FirstEight(Flat(nls, base))), Fitting(nls, ext, 3));
  }

  lemma StemsFit(plain: seq<byte>, long: bool, at: nat, at2: nat, jiffies: int, ext: seq<byte>)
    requires |ext| <= 3 && Fits(plain, ext) && |plain| == MSDOS_NAME && at <= 6 && at2 <= 2
    ensures Fits(DigitStem(plain, long), ext) && Fits(TailStem(plain, long, at, at2, jiffies), ext)
  {
    hide Fits, Put;
    PutKeeps(plain, 7, [SPACE], ext);
    var stem := DigitStem(plain, long);
    PutKeeps(stem, at, [TILDE, 0x39], ext);
    var nine := DigitName(stem, at, 9);
    PutKeeps(nine, 7, [SPACE], ext);
    PutKeeps(if at > 2 then Put(nine, 7, [SPACE]) else nine, at2 + 4, [TILDE, 0x31 + jiffies / 0x1_0000 % 8], ext);
  }

  /** Four digits and nine short tails. */
  const TAILS: nat := 0x1_0009

  /** Name number i of those tried for a text: those with four digits first. */
  function Tried(nls: DiskCharset, base: seq<Uni>, ext: seq<Uni>, jiffies: int, i: nat): (r: seq<byte>)
    requires i < TAILS
    ensures |r| == MSDOS_NAME
  {
    var plain, long := PlainName(nls, base, ext), |Flat(nls, base)| > 6;
    var at, at2 := |Fitting(nls, base, 6)|, |Fitting(nls, base, 2)|;
    if i < 0x1_0000 then Put(TailStem(plain, long, at, at2, jiffies), at2, Hex4(i))
    else DigitName(DigitStem(plain, long), at, i - 0x1_0000 + 1)
  }

  lemma TriedUsable(nls: DiskCharset, base: seq<Uni>, ext: seq<Uni>, jiffies: int, i: nat)
    requires Sane(nls) && Flat(nls, base) != [] && i < TAILS
    ensures Usable(Tried(nls, base, ext, jiffies, i))
  {
    hide Flat, Fitting, Sane, Put, TailStem, DigitStem, PlainName, Hex4, DigitName;
    var plain, long := PlainName(nls, base, ext), |Flat(nls, base)| > 6;
    var at, at2, e := |Fitting(nls, base, 6)|, |Fitting(nls, base, 2)|, Fitting(nls, ext, 3);
    PlainFits(nls, base, ext);
    StemsFit(plain, long, at, at2, jiffies, e);
    DigitsKeep(DigitStem(plain, long), at, e);
    TailsKeep(TailStem(plain, long, at, at2, jiffies), at2, jiffies, e);
    if i < 0x1_0000 {
      assert Fits(Put(TailStem(plain, long, at, at2, jiffies), at2, Hex4(i)), e);
    } else {
      assert Fits(DigitName(DigitStem(plain, long), at, i - 0x1_0000 + 1), e);
    }
  }

  lemma HexDigits(n: nat)
    requires n < 0x1_0000
    ensures forall k :: 0 <= k < 4 ==> Hex4(n)[k] < TILDE
  {
  }

  /** What a digit of a tail counts: 0 to 9 and A to F. */
  function TailDigit(c: byte): nat
    requires 0x30 <= c <= 0x39 || 0x41 <= c <= 0x46
  {
    if c <= 0x39 then c - 0x30 else c - 0x41 + 10
  }

  /** The four digits of a tail, the highest first, are upper case and count its number. */
  lemma DigitsCount(n: nat)
    requires n < 0x1_0000
    ensures forall k :: 0 <= k < 4 ==> 0x30 <= Hex4(n)[k] <= 0x39 || 0x41 <= Hex4(n)[k] <= 0x46
    ensures n == ((TailDigit(Hex4(n)[0]) * 16 + TailDigit(Hex4(n)[1])) * 16 + TailDigit(Hex4(n)[2])) * 16
                 + TailDigit(Hex4(n)[3])
  {
    Nibbles(n);
  }

  /** A short tail and a long one make the same name at most where the short one is that of the clock. */
  lemma DigitNotTail(plain: seq<byte>, long: bool, at: nat, at2: nat, jiffies: int, d: nat, t: nat)
    requires |plain| == MSDOS_NAME && at2 <= at <= 6 && at2 <= 2 && 1 <= d <= 9 && t < 0x1_0000
    requires at != at2 + 4 || d != 1 + jiffies / 0x1_0000 % 8
    ensures DigitName(DigitStem(plain, long), at, d) != Put(TailStem(plain, long, at, at2, jiffies), at2, Hex4(t))
  {
    hide Put, Hex4;
    HexDigits(t);
    var stem, tail := DigitStem(plain, long), [TILDE, 0x31 + jiffies / 0x1_0000 % 8];
    var nine := DigitName(stem, at, 9);
    var clear := if at > 2 then Put(nine, 7, [SPACE]) else nine;
    forall i | at <= i <= at + 1
      ensures DigitName(stem, at, d)[i] == if i == at then TILDE else 0x30 + d
      ensures Put(TailStem(plain, long, at, at2, jiffies), at2, Hex4(t))[i] ==
              if i < at2 + 4 then Hex4(t)[i - at2] else if i < at2 + 6 then tail[i - at2 - 4]
              else if i == 7 then SPACE else nine[i]
    {
      PutAt(stem, at, [TILDE, 0x30 + d], i);
      PutAt(nine, 7, [SPACE], i);
      PutAt(clear, at2 + 4, tail, i);
      PutAt(TailStem(plain, long, at, at2, jiffies), at2, Hex4(t), i);
    }
    var x, y := DigitName(stem, at, d), Put(TailStem(plain, long, at, at2, jiffies), at2, Hex4(t));
    assert x[at] != y[at] || x[at + 1] != y[at + 1];
  }

  lemma DigitsDistinct(stem: seq<byte>, at: nat, d: nat, e: nat)
    requires at + 2 <= |stem| && 1 <= d <= 9 && 1 <= e <= 9 && DigitName(stem, at, d) == DigitName(stem, at, e)
    ensures d == e
  {
    hide Put;
    PutAt(stem, at, [TILDE, 0x30 + d], at + 1);
    PutAt(stem, at, [TILDE, 0x30 + e], at + 1);
  }

  /** The names tried are different, but that the short tail of the clock may make one of the others. */
  lemma TriedDistinct(nls: DiskCharset, base: seq<Uni>, ext: seq<Uni>, jiffies: int, i: nat, j: nat)
    requires i < j < TAILS && Tried(nls, base, ext, jiffies, i) == Tried(nls, base, ext, jiffies, j)
    ensures i < 0x1_0000 && j == 0x1_0000 + jiffies / 0x1_0000 % 8
    ensures |Fitting(nls, base, 6)| == |Fitting(nls, base, 2)| + 4
  {
    hide Flat, Fitting, Put, TailStem, DigitStem, PlainName, Hex4, DigitName;
    var plain, long := PlainName(nls, base, ext), |Flat(nls, base)| > 6;
    var at, at2 := |Fitting(nls, base, 6)|, |Fitting(nls, base, 2)|;
    FittingGrows(nls, base, 2, 6);
    if j < 0x1_0000 {
      TailsDistinct(TailStem(plain, long, at, at2, jiffies), at2, i, j);
    } else if i >= 0x1_0000 {
      DigitsDistinct(DigitStem(plain, long), at, i - 0x1_0000 + 1, j - 0x1_0000 + 1);
    } else if at != at2 + 4 || j != 0x1_0000 + jiffies / 0x1_0000 % 8 {
      DigitNotTail(plain, long, at, at2, jiffies, j - 0x1_0000 + 1, i);
    }
  }

  /** Exactly when vfat_create_shortname does not return: for a name not of 8.3 form that is to get a tail, when every
      name tried is taken. */
  lemma NeverReturnsIff(nls: DiskCharset, base: seq<Uni>, ext: seq<Uni>, taken: seq<byte> -> bool, winnt: bool,
      numtail: bool, jiffies: int, r: Alias, name: seq<byte>, lower: (bool, bool))
    requires AliasOf(nls, base, ext, taken, winnt, numtail, jiffies, r, name, lower)
    ensures r == NeverReturns <==>
              && Flat(nls, base) != [] && !ShortForm(nls, base, ext) && (numtail || taken(PlainName(nls, base, ext)))
              && forall i :: 0 <= i < TAILS ==> taken(Tried(nls, base, ext, jiffies, i))
  {
    hide Flat, Fitting, Put, TailStem, DigitStem, PlainName, Hex4, DigitName, ShortForm, FirstDigit, FirstFree;
    var plain, long := PlainName(nls, base, ext), |Flat(nls, base)| > 6;
    var at, at2 := |Fitting(nls, base, 6)|, |Fitting(nls, base, 2)|;
    forall d | 1 <= d <= 9
      ensures Tried(nls, base, ext, jiffies, 0x1_0000 + d - 1) == DigitName(DigitStem(plain, long), at, d)
    {
    }
    forall t: nat | t < 0x1_0000
      ensures Tried(nls, base, ext, jiffies, t) == Put(TailStem(plain, long, at, at2, jiffies), at2, Hex4(t))
    {
    }
  }

  /** A name that is made is not taken. */
  lemma MadeFree(nls: DiskCharset, base: seq<Uni>, ext: seq<Uni>, taken: seq<byte> -> bool, winnt: bool,
      numtail: bool, jiffies: int, r: Alias, name: seq<byte>, lower: (bool, bool))
    requires AliasOf(nls, base, ext, taken, winnt, numtail, jiffies, r, name, lower) && r.Made?
    ensures !taken(name)
  {
    hide Flat, Fitting, Put, TailStem, DigitStem, PlainName, Hex4, DigitName, ShortForm, FirstFree;
  }

  // ----- what a short entry alone keeps of a name -----

  /** The upper case table changes the small letters of ASCII and no other ASCII byte. */
  ghost predicate AsciiCase(nls: DiskCharset) {
    forall b: byte :: b < 0x80 ==> ToUpper(nls, b) == if 0x61 <= b <= 0x7A then b - 0x20 else b
  }

  /** The bytes of the text as they are. */
  function Raw(nls: DiskCharset, cs: seq<Uni>): seq<byte> {
    if cs == [] then [] else Raw(nls, cs[..|cs| - 1]) + nls.uni2char(cs[|cs| - 1])
  }

  function LowerByte(b: byte): byte {
    if 0x41 <= b <= 0x5A then b + 0x20 else b
  }

  /** Bytes of an alias as they are read when their part of the name is flagged as small or is not. */
  function Reading(bytes: seq<byte>, small: bool): (r: seq<byte>)
    ensures |r| == |bytes| && forall i :: 0 <= i < |r| ==> r[i] == if small then LowerByte(bytes[i]) else bytes[i]
  {
    seq(|bytes|, i requires 0 <= i < |bytes| => if small then LowerByte(bytes[i]) else bytes[i])
  }

  /** Every character stays, as one ASCII byte. */
  ghost predicate AsciiText(nls: DiskCharset, cs: seq<Uni>) {
    forall i :: 0 <= i < |cs| ==> Stays(nls, cs[i]) && Ascii(nls, cs[i])
  }

  lemma {:induction false} OneByteEach(nls: DiskCharset, cs: seq<Uni>)
    requires AsciiText(nls, cs)
    ensures |Flat(nls, cs)| == |cs| && |Raw(nls, cs)| == |cs|
    ensures forall i :: 0 <= i < |cs| ==>
              && |nls.uni2char(cs[i])| == 1 && Raw(nls, cs)[i] == nls.uni2char(cs[i])[0] < 0x7F
              && Flat(nls, cs)[i] == ToUpper(nls, nls.uni2char(cs[i])[0])
  {
    hide ToUpper, SkipChar, ReplaceChar;
    if cs != [] {
      var rest := cs[..|cs| - 1];
      OneByteEach(nls, rest);
      forall i | 0 <= i < |rest|
        ensures rest[i] == cs[i]
      {
      }
    }
  }

  /** The two notes about case say which reading gives the text back. */
  lemma NotesReading(nls: DiskCharset, cs: seq<Uni>)
    requires AsciiCase(nls) && AsciiText(nls, cs)
    ensures Notes(nls, cs).upper <==> Reading(Flat(nls, cs), false) == Raw(nls, cs)
    ensures Notes(nls, cs).lower <==> Reading(Flat(nls, cs), true) == Raw(nls, cs)
  {
    hide Flat, Raw, ToUpper, Stays;
    OneByteEach(nls, cs);
    forall i | 0 <= i < |cs|
      ensures !Letter(nls, cs[i], false) <==> Reading(Flat(nls, cs), false)[i] == Raw(nls, cs)[i]
      ensures !Letter(nls, cs[i], true) <==> Reading(Flat(nls, cs), true)[i] == Raw(nls, cs)[i]
    {
    }
  }

  lemma NotedAscii(nls: DiskCharset, cs: seq<Uni>)
    requires Notes(nls, cs).valid && (Notes(nls, cs).lower || Notes(nls, cs).upper)
    ensures AsciiText(nls, cs)
  {
  }

  /** Both parts of a name are read back from their short characters, read small where small says so. Only a winnt
      mount has the flags for that. */
  ghost predicate ReadBack(nls: DiskCharset, base: seq<Uni>, ext: seq<Uni>, winnt: bool, small: (bool, bool)) {
    && (!winnt ==> small == (false, false))
    && Reading(Flat(nls, base), small.0) == Raw(nls, base) && Reading(Flat(nls, ext), small.1) == Raw(nls, ext)
  }

  /** A name that gets a short entry alone is in it whole, with its case. */
  lemma ShortOnlyKeeps(nls: DiskCharset, base: seq<Uni>, ext: seq<Uni>, taken: seq<byte> -> bool, winnt: bool,
      numtail: bool, jiffies: int, name: seq<byte>, lower: (bool, bool))
    requires AsciiCase(nls)
    requires AliasOf(nls, base, ext, taken, winnt, numtail, jiffies, Made(true), name, lower)
    ensures |Flat(nls, base)| <= 8 && |Flat(nls, ext)| <= 3
    ensures name == Formatted(Escaped(Flat(nls, base)), Flat(nls, ext))
    ensures ReadBack(nls, base, ext, winnt, lower)
  {
    hide Flat, Raw, Fitting, Notes, Reading, AsciiCase, FirstDigit, FirstFree;
    ShortFormWhole(nls, base, ext);
    NotedAscii(nls, base);
    NotedAscii(nls, ext);
    NotesReading(nls, base);
    NotesReading(nls, ext);
  }

  /** An ASCII name of 8.3 form that a short entry can keep gets one alone. */
  lemma KeptShortOnly(nls: DiskCharset, base: seq<Uni>, ext: seq<Uni>, taken: seq<byte> -> bool, winnt: bool,
      numtail: bool, jiffies: int, r: Alias, name: seq<byte>, lower: (bool, bool), small: (bool, bool))
    requires AsciiCase(nls) && AsciiText(nls, base) && AsciiText(nls, ext)
    requires Flat(nls, base) != [] && ShortForm(nls, base, ext) && !taken(PlainName(nls, base, ext))
    requires ReadBack(nls, base, ext, winnt, small)
    requires AliasOf(nls, base, ext, taken, winnt, numtail, jiffies, r, name, lower)
    ensures r == Made(true)
  {
    hide Flat, Raw, Fitting, Notes, Reading, AsciiCase, ShortForm, PlainName, FirstDigit, FirstFree, AsciiText;
    NotesReading(nls, base);
    NotesReading(nls, ext);
  }

  /** ASCII bytes stand for ASCII characters only. */
  ghost predicate AsciiApart(nls: DiskCharset) {
    && (forall c, b: byte :: b in nls.uni2char(c) && b < 0x80 ==> c == b && |nls.uni2char(c)| == 1)
    && (forall b: byte :: b >= 0x80 ==> ToUpper(nls, b) >= 0x80)
  }

  /** No short name has a dot, a space, one of [ ] ; , + = or a small letter among its characters. */
  lemma {:induction false} NoBadBytes(nls: DiskCharset, cs: seq<Uni>, b: byte)
    requires AsciiCase(nls) && AsciiApart(nls) && b in Flat(nls, cs)
    ensures b !in {0x2E, 0x20, 0x5B, 0x5D, 0x3B, 0x2C, 0x2B, 0x3D} && !(0x61 <= b <= 0x7A)
  {
    hide ToUpper;
    var rest, c := cs[..|cs| - 1], cs[|cs| - 1];
    if b in Flat(nls, rest) {
      NoBadBytes(nls, rest, b);
    } else {
      assert b in ShortChar(nls, c);
      if |nls.uni2char(c)| == 1 {
        assert nls.uni2char(c)[0] in nls.uni2char(c);
      }
    }
  }
}
