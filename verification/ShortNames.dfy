/** The 8.3 alias of a long name: how it is formed, and the search for one that the directory does not have yet. */
module ShortNames {
  import opened Arithmetic
  import opened FatDefs
  import opened DirSlots
  import opened LongNames

  const MSDOS_NAME: nat := 11
  const SPACE: byte := 0x20
  const TILDE: byte := 0x7E
  const UNDERSCORE: byte := 0x5F
  const DOT: Uni := 0x2E

  /** The disk character set: bytes for a character (none if it has none), and the upper case table (0: no entry). */
  datatype DiskCharset = DiskCharset(uni2char: Uni -> seq<byte>, charset2upper: byte -> byte)

  /** No character becomes more than six bytes or a zero byte. */
  ghost predicate Sane(nls: DiskCharset) {
    forall c :: |nls.uni2char(c)| <= 6 && 0 !in nls.uni2char(c)
  }

  predicate SkipChar(c: Uni) {
    c == DOT || c == 0x20
  }

  predicate ReplaceChar(c: Uni) {
    c in {0x5B, 0x5D, 0x3B, 0x2C, 0x2B, 0x3D}
  }

  function ToUpper(nls: DiskCharset, b: byte): byte {
    if nls.charset2upper(b) != 0 then nls.charset2upper(b) else b
  }

  predicate IsAlpha(b: byte) {
    0x41 <= b <= 0x5A || 0x61 <= b <= 0x7A
  }

  /** The bytes that stand for one character in the alias. */
  function ShortChar(nls: DiskCharset, c: Uni): seq<byte> {
    if SkipChar(c) then []
    else if ReplaceChar(c) || nls.uni2char(c) == [] then [UNDERSCORE]
    else if |nls.uni2char(c)| == 1 then [ToUpper(nls, nls.uni2char(c)[0])]
    else nls.uni2char(c)
  }

  function Flat(nls: DiskCharset, cs: seq<Uni>): seq<byte> {
    if cs == [] then [] else Flat(nls, cs[..|cs| - 1]) + ShortChar(nls, cs[|cs| - 1])
  }

  lemma ShortCharSane(nls: DiskCharset, c: Uni)
    requires Sane(nls)
    ensures |ShortChar(nls, c)| <= 6 && 0 !in ShortChar(nls, c)
  {
    assert |nls.uni2char(c)| <= 6;
    if nls.uni2char(c) != [] {
      assert nls.uni2char(c)[0] in nls.uni2char(c);
    }
  }

  /** struct shortname_info. */
  datatype Info = Info(lower: bool, upper: bool, valid: bool)

  /** What to_shortname_char notes about a character. */
  function Noted(nls: DiskCharset, c: Uni, info: Info): Info {
    if SkipChar(c) || ReplaceChar(c) || nls.uni2char(c) == [] then info.(valid := false)
    else if |nls.uni2char(c)| > 1 then info.(lower := false, upper := false)
    else
      var prev := nls.uni2char(c)[0];
      var i := if prev >= 0x7F then info.(lower := false, upper := false) else info;
      if IsAlpha(ToUpper(nls, prev)) then
        if ToUpper(nls, prev) == prev then i.(lower := false) else i.(upper := false)
      else i
  }

  /** The character stands in the alias as it is, but for its case. */
  predicate Stays(nls: DiskCharset, c: Uni) {
    !SkipChar(c) && !ReplaceChar(c) && nls.uni2char(c) != []
  }

  /** A single ASCII byte, or not a character that stays. */
  predicate Ascii(nls: DiskCharset, c: Uni) {
    Stays(nls, c) ==> |nls.uni2char(c)| == 1 && nls.uni2char(c)[0] < 0x7F
  }

  /** A letter that stays, and whether it is one in upper case. */
  predicate Letter(nls: DiskCharset, c: Uni, upper: bool) {
    && Stays(nls, c) && |nls.uni2char(c)| == 1 && IsAlpha(ToUpper(nls, nls.uni2char(c)[0]))
    && (upper <==> ToUpper(nls, nls.uni2char(c)[0]) == nls.uni2char(c)[0])
  }

  /** What is noted about a text: no capitals, no small letters, nothing left out or replaced. */
  ghost function Notes(nls: DiskCharset, cs: seq<Uni>): Info {
    Info(forall i :: 0 <= i < |cs| ==> Ascii(nls, cs[i]) && !Letter(nls, cs[i], true),
         forall i :: 0 <= i < |cs| ==> Ascii(nls, cs[i]) && !Letter(nls, cs[i], false),
         forall i :: 0 <= i < |cs| ==> Stays(nls, cs[i]))
  }

  lemma NotesStep(nls: DiskCharset, cs: seq<Uni>, i: nat)
    requires i < |cs|
    ensures Noted(nls, cs[i], Notes(nls, cs[..i])) == Notes(nls, cs[..i + 1])
  {
    hide SkipChar, ReplaceChar, IsAlpha, ToUpper;
    assert cs[..i + 1] == cs[..i] + [cs[i]];
    assert forall j :: 0 <= j < i ==> cs[..i][j] == cs[j] == cs[..i + 1][j];
    assert cs[..i + 1][i] == cs[i];
  }

  // ----- splitting the name -----

  /** Where the base of the name ends and the extension begins, if it has one. */
  datatype Split = Split(sz: nat, ext: nat)

  /** The base is the whole name, unless a dot that is not its last character and has more than dots and spaces before
      it is its last dot. */
  ghost predicate SplitOk(uname: seq<Uni>, s: Split) {
    || (s == Split(|uname|, |uname|)
        && forall d :: 0 <= d < |uname| - 1 && LastDot(uname, d) ==> forall i :: 0 <= i < d ==> SkipChar(uname[i]))
    || (s.ext == s.sz + 1 < |uname| && LastDot(uname, s.sz) && exists i :: 0 <= i < s.sz && !SkipChar(uname[i]))
  }

  predicate LastDot(uname: seq<Uni>, d: nat) {
    d < |uname| && uname[d] == DOT && forall i :: d < i < |uname| ==> uname[i] != DOT
  }

  /** There is one way to split a name. */
  lemma SplitUnique(uname: seq<Uni>, s: Split, t: Split)
    requires SplitOk(uname, s) && SplitOk(uname, t)
    ensures s == t
  {
    if s.ext < |uname| && t.ext < |uname| {
      assert LastDot(uname, s.sz) && LastDot(uname, t.sz);
    }
  }

  method SplitName(uname: seq<Uni>) returns (s: Split)
    ensures SplitOk(uname, s)
  {
    var dot := |uname| - 1;
    while dot >= 0 && uname[dot] != DOT
      invariant -1 <= dot < |uname|
      invariant forall i :: dot < i < |uname| ==> uname[i] != DOT
    {
      dot := dot - 1;
    }
    if dot == |uname| - 1 || dot == -1 {
      return Split(|uname|, |uname|);
    }
    var start := 0;
    while start < dot && SkipChar(uname[start])
      invariant 0 <= start <= dot
      invariant forall i :: 0 <= i < start ==> SkipChar(uname[i])
    {
      start := start + 1;
    }
    if start != dot {
      assert LastDot(uname, dot) && !SkipChar(uname[start]);
      return Split(dot, dot + 1);
    }
    return Split(|uname|, |uname|);
  }

  // ----- base and extension -----

  /** The bytes of the longest beginning of the text that fits into limit bytes. */
  function Fitting(nls: DiskCharset, cs: seq<Uni>, limit: nat): (r: seq<byte>)
    ensures |r| <= limit
    ensures |Flat(nls, cs)| <= limit ==> r == Flat(nls, cs)
  {
    if |Flat(nls, cs)| <= limit then Flat(nls, cs) else Fitting(nls, cs[..|cs| - 1], limit)
  }

  /** It ends between two characters, and no longer beginning fits. */
  lemma {:induction false} FittingLongest(nls: DiskCharset, cs: seq<Uni>, limit: nat, k: nat)
    requires k <= |cs|
    ensures exists i :: 0 <= i <= |cs| && Fitting(nls, cs, limit) == Flat(nls, cs[..i])
    ensures |Flat(nls, cs[..k])| <= limit ==> Flat(nls, cs[..k]) <= Fitting(nls, cs, limit)
  {
    hide ShortChar;
    assert cs[..|cs|] == cs;
    FlatPrefix(nls, cs, k);
    if |Flat(nls, cs)| > limit {
      var rest := cs[..|cs| - 1];
      FittingLongest(nls, rest, limit, if k == |cs| then 0 else k);
      assert k < |cs| ==> rest[..k] == cs[..k];
      var i :| 0 <= i <= |rest| && Fitting(nls, rest, limit) == Flat(nls, rest[..i]);
      assert rest[..i] == cs[..i];
    }
  }

  /** Once a beginning no longer fits, the rest of the text does not matter. */
  lemma {:induction false} FittingPrefix(nls: DiskCharset, cs: seq<Uni>, limit: nat, k: nat)
    requires k <= |cs| && |Flat(nls, cs[..k])| > limit
    ensures Fitting(nls, cs, limit) == Fitting(nls, cs[..k], limit)
    decreases |cs|
  {
    hide ShortChar;
    assert cs[..|cs|] == cs;
    FlatPrefix(nls, cs, k);
    if k < |cs| {
      assert cs[..|cs| - 1][..k] == cs[..k];
      FittingPrefix(nls, cs[..|cs| - 1], limit, k);
    }
  }

  /** A beginning that fills the limit is the one that fits. */
  lemma FittingFull(nls: DiskCharset, cs: seq<Uni>, limit: nat, k: nat)
    requires k <= |cs| && |Flat(nls, cs[..k])| == limit
    ensures Fitting(nls, cs, limit) == Flat(nls, cs[..k])
  {
    FittingLongest(nls, cs, limit, k);
  }

  /** What fits into more bytes than it fills is what fits into those it fills. */
  lemma {:induction false} FittingLess(nls: DiskCharset, cs: seq<Uni>, less: nat, limit: nat)
    requires less <= limit && |Fitting(nls, cs, limit)| <= less
    ensures Fitting(nls, cs, less) == Fitting(nls, cs, limit)
  {
    if |Flat(nls, cs)| > limit {
      FittingLess(nls, cs[..|cs| - 1], less, limit);
    }
  }

  lemma FittingStep(nls: DiskCharset, cs: seq<Uni>, limit: nat, i: nat)
    requires i < |cs| && |Flat(nls, cs[..i + 1])| > limit
    ensures Fitting(nls, cs[..i + 1], limit) == Fitting(nls, cs[..i], limit)
  {
    assert cs[..i + 1][..i] == cs[..i];
  }

  /** The text fits into limit bytes, and its last character does not come after they were full. */
  predicate Whole(nls: DiskCharset, cs: seq<Uni>, limit: nat) {
    |Flat(nls, cs)| <= limit && (cs != [] ==> |Flat(nls, cs[..|cs| - 1])| < limit)
  }

  lemma NotWhole(nls: DiskCharset, cs: seq<Uni>, limit: nat, i: nat)
    requires i <= |cs|
    ensures |Flat(nls, cs[..i])| > limit ==> !Whole(nls, cs, limit)
    ensures i < |cs| && |Flat(nls, cs[..i])| >= limit ==> !Whole(nls, cs, limit)
  {
    hide ShortChar;
    FlatPrefix(nls, cs, i);
    if i < |cs| {
      FlatPrefix(nls, cs[..|cs| - 1], i);
      assert cs[..|cs| - 1][..i] == cs[..i];
    }
  }

  function FirstEight(bs: seq<byte>): seq<byte> {
    if |bs| <= 8 then bs else bs[..8]
  }

  /** A cut position as far as the loop has come: where the text leaves the limit, or still the limit. */
  predicate CutAt(nls: DiskCharset, cs: seq<Uni>, limit: nat, cut: nat) {
    cut == if |Flat(nls, cs)| > limit then |Fitting(nls, cs, limit)| else limit
  }

  lemma CutStep(nls: DiskCharset, cs: seq<Uni>, limit: nat, i: nat, cut: nat)
    requires i < |cs| && CutAt(nls, cs[..i], limit, cut)
    ensures var before, after := |Flat(nls, cs[..i])|, |Flat(nls, cs[..i + 1])|;
            CutAt(nls, cs[..i + 1], limit, if before < limit && after > limit then before else cut)
  {
    hide Flat, ShortChar, Fitting;
    FlatStep(nls, cs, i);
    if |Flat(nls, cs[..i + 1])| > limit {
      FittingStep(nls, cs, limit, i);
    }
  }

  lemma CutFinal(nls: DiskCharset, cs: seq<Uni>, limit: nat, i: nat, cut: nat)
    requires i <= |cs| && CutAt(nls, cs[..i], limit, cut) && |Flat(nls, cs[..i])| > limit
    ensures CutAt(nls, cs, limit, cut)
  {
    hide Flat, ShortChar, Fitting;
    FlatPrefix(nls, cs, i);
    FittingPrefix(nls, cs, limit, i);
  }

  /** The loop that forms the base: the first eight bytes of the name, and where a tail may cut it. */
  method FormBase(nls: DiskCharset, cs: seq<Uni>)
    returns (base: seq<byte>, numtail: nat, numtail2: nat, whole: bool, info: Info)
    requires Sane(nls)
    ensures base == FirstEight(Flat(nls, cs)) && 0 !in base
    ensures |base| > 6 ==> numtail == |Fitting(nls, cs, 6)|
    ensures |base| > 2 ==> numtail2 == |Fitting(nls, cs, 2)|
    ensures whole <==> Whole(nls, cs, 8)
    ensures whole ==> info == Notes(nls, cs)
  {
    hide Flat, ShortChar, Noted, Notes, Sane, Fitting;
    NoChars(nls, cs);
    base, numtail, numtail2, whole, info := [], 6, 2, true, Info(true, true, true);
    var i := 0;
    while i < |cs|
      invariant 0 <= i <= |cs| && |base| < 8 && base == Flat(nls, cs[..i]) && 0 !in base
      invariant CutAt(nls, cs[..i], 6, numtail) && CutAt(nls, cs[..i], 2, numtail2)
      invariant whole && info == Notes(nls, cs[..i])
    {
      var chl := ShortChar(nls, cs[i]);
      ShortCharSane(nls, cs[i]);
      NotesStep(nls, cs, i);
      info := Noted(nls, cs[i], info);
      FlatStep(nls, cs, i);
      CutStep(nls, cs, 6, i, numtail);
      CutStep(nls, cs, 2, i, numtail2);
      if |base| < 2 && |base| + |chl| > 2 { numtail2 := |base|; }
      if |base| < 6 && |base| + |chl| > 6 { numtail := |base|; }
      var room := if |base| + |chl| >= 8 then 8 - |base| else |chl|;
      ghost var was := base;
      base := base + chl[..room];
      if |base| >= 8 {
        whole := !(room < |chl| || i + 1 < |cs|);
        assert base == (was + chl)[..8];
        CutFinal(nls, cs, 6, i + 1, numtail);
        CutFinal(nls, cs, 2, i + 1, numtail2);
        NotWhole(nls, cs, 8, i + 1);
        assert i + 1 == |cs| ==> cs[..i + 1] == cs && cs[..|cs| - 1] == cs[..i];
        return;
      }
      assert chl[..room] == chl;
      i := i + 1;
    }
    assert cs[..i] == cs;
    ShortOfLimit(nls, cs, 8);
  }

  lemma ShortOfLimit(nls: DiskCharset, cs: seq<Uni>, limit: nat)
    requires |Flat(nls, cs)| < limit
    ensures Whole(nls, cs, limit)
  {
    if cs != [] {
      FlatPrefix(nls, cs, |cs| - 1);
    }
  }

  lemma NoChars(nls: DiskCharset, cs: seq<Uni>)
    ensures Flat(nls, cs[..0]) == [] && Notes(nls, cs[..0]) == Info(true, true, true)
  {
  }

  lemma FlatStep(nls: DiskCharset, cs: seq<Uni>, i: nat)
    requires i < |cs|
    ensures Flat(nls, cs[..i + 1]) == Flat(nls, cs[..i]) + ShortChar(nls, cs[i])
    ensures Flat(nls, cs[..i]) <= Flat(nls, cs[..i + 1]) <= Flat(nls, cs)
  {
    assert cs[..i + 1][..i] == cs[..i];
    FlatPrefix(nls, cs, i + 1);
  }

  lemma {:induction false} FlatPrefix(nls: DiskCharset, cs: seq<Uni>, i: nat)
    requires i <= |cs|
    ensures Flat(nls, cs[..i]) <= Flat(nls, cs)
    decreases |cs| - i
  {
    if i < |cs| {
      FlatPrefix(nls, cs, i + 1);
      assert cs[..i + 1][..i] == cs[..i];
    } else {
      assert cs[..i] == cs;
    }
  }

  /** The loop that forms the extension: whole characters, up to three bytes. */
  method FormExt(nls: DiskCharset, cs: seq<Uni>) returns (ext: seq<byte>, whole: bool, info: Info)
    requires Sane(nls)
    ensures ext == Fitting(nls, cs, 3) && 0 !in ext
    ensures whole <==> Whole(nls, cs, 3)
    ensures whole ==> info == Notes(nls, cs)
  {
    hide Flat, ShortChar, Noted, Notes, Sane, Fitting;
    NoChars(nls, cs);
    ext, whole, info := [], true, Info(true, true, true);
    var i := 0;
    while |ext| < 3 && i < |cs|
      invariant 0 <= i <= |cs| && |ext| <= 3 && ext == Flat(nls, cs[..i]) && 0 !in ext && whole
      invariant info == Notes(nls, cs[..i])
      invariant |ext| < 3 || (i == |cs| && Whole(nls, cs, 3))
    {
      var chl := ShortChar(nls, cs[i]);
      ShortCharSane(nls, cs[i]);
      NotesStep(nls, cs, i);
      info := Noted(nls, cs[i], info);
      FlatStep(nls, cs, i);
      NotWhole(nls, cs, 3, i + 1);
      if |ext| + |chl| > 3 {
        FittingPrefix(nls, cs, 3, i + 1);
        FittingStep(nls, cs, 3, i);
        whole := false;
        return;
      }
      ext, i := ext + chl, i + 1;
      if |ext| >= 3 {
        FittingFull(nls, cs, 3, i);
        if i != |cs| {
          whole := false;
          return;
        }
        assert cs[..i] == cs && cs[..|cs| - 1] == cs[..i - 1];
      }
    }
    assert cs[..i] == cs;
    if |ext| < 3 {
      ShortOfLimit(nls, cs, 3);
    }
  }

  // ----- the search for a free alias -----

  /** The 11 bytes of the name: base and extension, filled up with spaces. */
  function Formatted(base: seq<byte>, ext: seq<byte>): (r: seq<byte>)
    requires |base| <= 8 && |ext| <= 3
    ensures |r| == MSDOS_NAME
  {
    base + seq(8 - |base|, _ => SPACE) + ext + seq(3 - |ext|, _ => SPACE)
  }

  function Put(name: seq<byte>, at: nat, bytes: seq<byte>): (r: seq<byte>)
    requires at + |bytes| <= |name|
    ensures |r| == |name|
  {
    name[..at] + bytes + name[at + |bytes|..]
  }

  function HexUpper(n: nat): byte
    requires n < 16
  {
    if n > 9 then n + (0x41 - 10) else n + 0x30
  }

  /** "%04X" */
  function Hex4(n: nat): (r: seq<byte>)
    requires n < 0x1_0000
    ensures |r| == 4
  {
    [HexUpper(n / 4096), HexUpper(n / 256 % 16), HexUpper(n / 16 % 16), HexUpper(n % 16)]
  }

  /** Different tails make different names. */
  lemma TailsDistinct(stem: seq<byte>, at: nat, m: nat, n: nat)
    requires at + 4 <= |stem| && m < 0x1_0000 && n < 0x1_0000 && Put(stem, at, Hex4(m)) == Put(stem, at, Hex4(n))
    ensures m == n
  {
    hide HexUpper;
    assert Put(stem, at, Hex4(m))[at..at + 4] == Hex4(m) && Put(stem, at, Hex4(n))[at..at + 4] == Hex4(n);
    assert Hex4(m)[0] == Hex4(n)[0] && Hex4(m)[1] == Hex4(n)[1] && Hex4(m)[2] == Hex4(n)[2] && Hex4(m)[3] == Hex4(n)[3];
    HexInjective(m / 4096, n / 4096);
    HexInjective(m / 256 % 16, n / 256 % 16);
    HexInjective(m / 16 % 16, n / 16 % 16);
    HexInjective(m % 16, n % 16);
    Nibbles(m);
    Nibbles(n);
  }

  lemma HexInjective(m: nat, n: nat)
    requires m < 16 && n < 16
    ensures HexUpper(m) == HexUpper(n) ==> m == n
  {
  }

  /** 11 times this is one more than a multiple of 65536. */
  const INVERSE_OF_11: nat := 35747

  /** The tail tried in round m: the clock, counted down by 11. */
  function Tail4(jiffies: int, m: nat): nat {
    (jiffies - 11 * m) % 0x1_0000
  }

  /** The first 65536 rounds try every tail. */
  lemma EveryTail(jiffies: int, t: nat)
    requires t < 0x1_0000
    ensures exists m :: 0 <= m < 0x1_0000 && Tail4(jiffies, m) == t
  {
    var d := jiffies - t;
    var m := d * INVERSE_OF_11 % 0x1_0000;
    var q := d * INVERSE_OF_11 / 0x1_0000;
    assert 11 * m == d + 0x1_0000 * (6 * d - 11 * q) by {
      assert m == d * INVERSE_OF_11 - 0x1_0000 * q;
      assert 11 * INVERSE_OF_11 == 6 * 0x1_0000 + 1;
    }
    assert jiffies - 11 * m == t + 0x1_0000 * (11 * q - 6 * d);
    assert Tail4(jiffies, m) == t;
  }

  /** name has the tail of round m, and every tail before it is taken. */
  ghost predicate FirstFree(stem: seq<byte>, at: nat, jiffies: int, taken: seq<byte> -> bool, name: seq<byte>, m: nat)
    requires at + 4 <= |stem|
  {
    && name == Put(stem, at, Hex4(Tail4(jiffies, m)))
    && forall l :: 0 <= l < m ==> taken(Put(stem, at, Hex4(Tail4(jiffies, l))))
  }

  /** The endless loop of vfat_create_shortname: it finds a tail if and only if one is free, the first in its order.
      Where it returns found == false the loop would go on forever, over the same 65536 names. */
  method SearchTails(stem: seq<byte>, at: nat, jiffies: int, taken: seq<byte> -> bool)
    returns (found: bool, name: seq<byte>)
    requires at + 4 <= |stem|
    ensures found <==> exists t: nat :: t < 0x1_0000 && !taken(Put(stem, at, Hex4(t)))
    ensures found ==> !taken(name) && exists m: nat :: m < 0x1_0000 && FirstFree(stem, at, jiffies, taken, name, m)
  {
    var i, m := jiffies, 0;
    name := stem;
    while m < 0x1_0000
      invariant 0 <= m <= 0x1_0000 && i == jiffies - 11 * m
      invariant forall l :: 0 <= l < m ==> taken(Put(stem, at, Hex4(Tail4(jiffies, l))))
    {
      name := Put(stem, at, Hex4(i % 0x1_0000));
      assert i % 0x1_0000 == Tail4(jiffies, m);
      if !taken(name) {
        assert FirstFree(stem, at, jiffies, taken, name, m);
        return true, name;
      }
      i, m := i - 11, m + 1;
    }
    forall t: nat | t < 0x1_0000
      ensures taken(Put(stem, at, Hex4(t)))
    {
      EveryTail(jiffies, t);
      var l :| 0 <= l < 0x1_0000 && Tail4(jiffies, l) == t;
    }
    found := false;
  }

  function DigitName(stem: seq<byte>, at: nat, d: nat): (r: seq<byte>)
    requires at + 2 <= |stem| && 1 <= d <= 9
    ensures |r| == |stem|
  {
    Put(stem, at, [TILDE, 0x30 + d])
  }

  /** name has the tail ~d, and the tails with smaller digits are taken. */
  ghost predicate FirstDigit(stem: seq<byte>, at: nat, taken: seq<byte> -> bool, name: seq<byte>, d: nat)
    requires at + 2 <= |stem|
  {
    && 1 <= d <= 9 && name == DigitName(stem, at, d) && !taken(name)
    && forall l :: 1 <= l < d ==> taken(DigitName(stem, at, l))
  }

  /** The nine short tails, in order. */
  method SearchDigits(stem: seq<byte>, at: nat, taken: seq<byte> -> bool) returns (found: bool, name: seq<byte>)
    requires at + 2 <= |stem|
    ensures |name| == |stem|
    ensures found ==> exists d: nat :: FirstDigit(stem, at, taken, name, d)
    ensures !found ==> name == DigitName(stem, at, 9) && forall d :: 1 <= d <= 9 ==> taken(DigitName(stem, at, d))
  {
    var i := 1;
    name := stem;
    while i < 10
      invariant 1 <= i <= 10
      invariant i == 1 ==> name == stem
      invariant i > 1 ==> name == DigitName(stem, at, i - 1)
      invariant forall d :: 1 <= d < i ==> taken(DigitName(stem, at, d))
    {
      name := DigitName(stem, at, i);
      if !taken(name) {
        assert FirstDigit(stem, at, taken, name, i);
        return true, name;
      }
      i := i + 1;
    }
    found := false;
  }

  /** Result of vfat_create_shortname: 0 or 1 (no long name slots needed), an error, or no return at all. */
  datatype Alias = Made(shortOnly: bool) | Refused(errno: Errno) | NeverReturns

  /** A name that may stand in a short entry: eleven bytes, none of them zero, and the first no deletion mark. */
  predicate Usable(name: seq<byte>) {
    |name| == MSDOS_NAME && 0 !in name && name[0] != DELETED_FLAG
  }

  /** The base with the byte 0xE5 in front replaced by its stand-in. */
  function Escaped(base: seq<byte>): (r: seq<byte>)
    ensures |r| == |base|
  {
    if base != [] && base[0] == DELETED_FLAG then [0x05] + base[1..] else base
  }

  /** What the tails ~1 to ~9 are put into: the last place of a base over six bytes is cleared. */
  function DigitStem(plain: seq<byte>, long: bool): (r: seq<byte>)
    requires |plain| == MSDOS_NAME
    ensures |r| == MSDOS_NAME
  {
    if long then Put(plain, 7, [SPACE]) else plain
  }

  /** What the four-digit tails are put into: the name with the tail ~9, and behind the place of the digits ~ and the
      clock. */
  function TailStem(plain: seq<byte>, long: bool, at: nat, at2: nat, jiffies: int): (r: seq<byte>)
    requires |plain| == MSDOS_NAME && at <= 6 && at2 <= 2
    ensures |r| == MSDOS_NAME
  {
    var nine := DigitName(DigitStem(plain, long), at, 9);
    Put(if at > 2 then Put(nine, 7, [SPACE]) else nine, at2 + 4, [TILDE, 0x31 + jiffies / 0x1_0000 % 8])
  }

  /** The search for a name with a tail came to r and name: the first free one of the nine short tails, or the first
      free one of the long tails when those are all taken, or no end when these are all taken too. */
  ghost predicate Searched(plain: seq<byte>, long: bool, at: nat, at2: nat, taken: seq<byte> -> bool, jiffies: int,
      r: Alias, name: seq<byte>)
    requires |plain| == MSDOS_NAME && at <= 6 && at2 <= 2
  {
    var stem, stem2 := DigitStem(plain, long), TailStem(plain, long, at, at2, jiffies);
    if exists d :: 1 <= d <= 9 && !taken(DigitName(stem, at, d)) then
      r == Made(false) && exists d: nat :: FirstDigit(stem, at, taken, name, d)
    else if exists t: nat :: t < 0x1_0000 && !taken(Put(stem2, at2, Hex4(t))) then
      && r == Made(false) && !taken(name)
      && exists m: nat :: m < 0x1_0000 && FirstFree(stem2, at2, jiffies, taken, name, m)
    else r == NeverReturns
  }

  /** The end of vfat_create_shortname: a name with a tail. */
  method SearchAlias(plain: seq<byte>, len: nat, cut: nat, cut2: nat, taken: seq<byte> -> bool, jiffies: int,
      ghost at: nat, ghost at2: nat, ghost ext: seq<byte>) returns (r: Alias, name: seq<byte>)
    requires |ext| <= 3 && Fits(plain, ext)
    requires at == (if len > 6 then cut else len) <= 6 && at2 == (if at > 2 then cut2 else at) <= 2
    ensures Searched(plain, len > 6, at, at2, taken, jiffies, r, name)
    ensures r.Made? ==> !taken(name) && Fits(name, ext)
  {
    hide Put, DigitName, Hex4, FirstFree, Fits;
    var baselen, found := len, false;
    FitsLength(plain, ext);
    name := plain;
    if baselen > 6 {
      baselen := cut;
      PutKeeps(name, 7, [SPACE], ext);
      name := Put(name, 7, [SPACE]);
    }
    DigitsKeep(name, baselen, ext);
    found, name := SearchDigits(name, baselen, taken);
    if found {
      ghost var d: nat :| FirstDigit(DigitStem(plain, len > 6), at, taken, name, d);
      assert !taken(DigitName(DigitStem(plain, len > 6), at, d));
      return Made(false), name;
    }
    var clock := jiffies / 0x1_0000 % 8;
    if baselen > 2 {
      baselen := cut2;
      PutKeeps(name, 7, [SPACE], ext);
      name := Put(name, 7, [SPACE]);
    }
    PutKeeps(name, baselen + 4, [TILDE, 0x31 + clock], ext);
    name := Put(name, baselen + 4, [TILDE, 0x31 + clock]);
    TailsKeep(name, baselen, jiffies, ext);
    assert name == TailStem(plain, len > 6, at, at2, jiffies);
    found, name := SearchTails(name, baselen, jiffies, taken);
    if found {
      TailFits(TailStem(plain, len > 6, at, at2, jiffies), at2, jiffies, taken, name, ext);
      return Made(false), name;
    }
    r := NeverReturns;
  }

  lemma FitsLength(name: seq<byte>, ext: seq<byte>)
    requires |ext| <= 3 && Fits(name, ext)
    ensures |name| == MSDOS_NAME
  {
  }

  lemma TailFits(stem: seq<byte>, at: nat, jiffies: int, taken: seq<byte> -> bool, name: seq<byte>, ext: seq<byte>)
    requires at + 4 <= |stem| && |ext| <= 3 && forall t: nat :: t < 0x1_0000 ==> Fits(Put(stem, at, Hex4(t)), ext)
    requires exists m: nat :: m < 0x1_0000 && FirstFree(stem, at, jiffies, taken, name, m)
    ensures Fits(name, ext)
  {
    hide Put, Hex4, Fits;
  }

  /** The eleven bytes of a name without a tail. */
  function PlainName(nls: DiskCharset, base: seq<Uni>, ext: seq<Uni>): (r: seq<byte>)
    ensures |r| == MSDOS_NAME
  {
    Formatted(Escaped(FirstEight(Flat(nls, base))), Fitting(nls, ext, 3))
  }

  /** The name has the 8.3 form: nothing is cut off, left out or replaced. */
  ghost predicate ShortForm(nls: DiskCharset, base: seq<Uni>, ext: seq<Uni>) {
    Whole(nls, base, 8) && Whole(nls, ext, 3) && Notes(nls, base).valid && Notes(nls, ext).valid
  }

  /** Whether a name of 8.3 form needs no long name slots, and the two flags for small letters it then gets. */
  function CaseRule(winnt: bool, b: Info, x: Info): (bool, bool, bool) {
    if !winnt then (b.upper && x.upper, false, false)
    else if (b.upper || b.lower) && (x.upper || x.lower) then (true, !b.upper && b.lower, !x.upper && x.lower)
    else (false, false, false)
  }

  /** vfat_create_shortname for a name in two parts. */
  ghost predicate AliasOf(nls: DiskCharset, base: seq<Uni>, ext: seq<Uni>, taken: seq<byte> -> bool, winnt: bool,
      numtail: bool, jiffies: int, r: Alias, name: seq<byte>, lower: (bool, bool))
  {
    var plain := PlainName(nls, base, ext);
    if Flat(nls, base) == [] then r == Refused(EINVAL)
    else if ShortForm(nls, base, ext) then
      if taken(plain) then r == Refused(EEXIST)
      else
        && name == plain && r.Made?
        && (r.shortOnly, lower.0, lower.1) == CaseRule(winnt, Notes(nls, base), Notes(nls, ext))
    else
      && lower == (false, false)
      && if !numtail && !taken(plain) then r == Made(false) && name == plain
         else Searched(plain, |Flat(nls, base)| > 6, |Fitting(nls, base, 6)|, |Fitting(nls, base, 2)|, taken, jiffies,
                       r, name)
  }

  /** vfat_create_shortname. taken says which names the directory has; winnt picks the CREATE_WINNT rule over the
      CREATE_WIN95 one. */
  method CreateShortname(nls: DiskCharset, uname: seq<Uni>, taken: seq<byte> -> bool, winnt: bool, numtail: bool,
      jiffies: int)
    returns (r: Alias, name: seq<byte>, lowerBase: bool, lowerExt: bool)
    requires Sane(nls)
    ensures r.Made? ==> !taken(name) && Usable(name)
    ensures exists s :: SplitOk(uname, s) && s.sz <= |uname| && s.ext <= |uname|
              && AliasOf(nls, uname[..s.sz], uname[s.ext..], taken, winnt, numtail, jiffies, r, name,
                         (lowerBase, lowerExt))
              && (r.Made? ==> Fits(name, Fitting(nls, uname[s.ext..], 3)))
  {
    hide Flat, SplitOk, Formatted, Put, DigitName, Sane, Notes, Whole, Fitting, Searched;
    lowerBase, lowerExt, name := false, false, [];
    var split := SplitName(uname);
    ghost var s := split;
    SplitInside(uname, s);
    ghost var cs, es := uname[..s.sz], uname[s.ext..];
    var base, cut, cut2, whole, baseInfo := FormBase(nls, uname[..split.sz]);
    var ext, wholeExt, extInfo := FormExt(nls, uname[split.ext..]);
    if base == [] {
      return Refused(EINVAL), name, lowerBase, lowerExt;
    }
    var fixed := Escaped(base);
    name := Formatted(fixed, ext);
    FormattedUsable(fixed, ext);
    if whole && wholeExt && baseInfo.valid && extInfo.valid {
      if taken(name) {
        r := Refused(EEXIST);
      } else if !winnt {
        r := Made(baseInfo.upper && extInfo.upper);
      } else if (baseInfo.upper || baseInfo.lower) && (extInfo.upper || extInfo.lower) {
        lowerBase := !baseInfo.upper && baseInfo.lower;
        lowerExt := !extInfo.upper && extInfo.lower;
        r := Made(true);
      } else {
        r := Made(false);
      }
      return;
    }
    if !numtail && !taken(name) {
      return Made(false), name, lowerBase, lowerExt;
    }
    CutPositions(nls, cs);
    r, name := SearchAlias(name, |base|, cut, cut2, taken, jiffies, |Fitting(nls, cs, 6)|, |Fitting(nls, cs, 2)|, ext);
  }

  lemma CutPositions(nls: DiskCharset, cs: seq<Uni>)
    ensures |Fitting(nls, cs, 6)| <= 2 ==> Fitting(nls, cs, 2) == Fitting(nls, cs, 6)
    ensures |Flat(nls, cs)| <= 6 ==> Fitting(nls, cs, 6) == Flat(nls, cs)
    ensures |Fitting(nls, cs, 6)| <= |Flat(nls, cs)|
  {
    hide ShortChar;
    if |Fitting(nls, cs, 6)| <= 2 {
      FittingLess(nls, cs, 2, 6);
    }
  }

  /** In 8.3 form the name is the whole text. */
  lemma ShortFormWhole(nls: DiskCharset, base: seq<Uni>, ext: seq<Uni>)
    requires ShortForm(nls, base, ext)
    ensures PlainName(nls, base, ext) == Formatted(Escaped(Flat(nls, base)), Flat(nls, ext))
  {
    hide Flat;
  }

  /** A usable name whose last three bytes are those of the extension. */
  predicate Fits(name: seq<byte>, ext: seq<byte>)
    requires |ext| <= 3
  {
    Usable(name) && name[8..] == ext + seq(3 - |ext|, _ => SPACE)
  }

  lemma SplitInside(uname: seq<Uni>, s: Split)
    requires SplitOk(uname, s)
    ensures s.sz <= |uname| && s.ext <= |uname|
  {
  }

  lemma FormattedUsable(base: seq<byte>, ext: seq<byte>)
    requires 0 < |base| <= 8 && |ext| <= 3 && 0 !in base && 0 !in ext && base[0] != DELETED_FLAG
    ensures Fits(Formatted(base, ext), ext)
  {
  }

  /** Bytes put within the first eight leave the extension, and a usable name where they leave its first byte or bring
      one that is not a mark. */
  lemma PutKeeps(name: seq<byte>, at: nat, bytes: seq<byte>, ext: seq<byte>)
    requires |ext| <= 3 && Fits(name, ext) && at + |bytes| <= 8 && bytes != []
    requires 0 !in bytes && bytes[0] != DELETED_FLAG
    ensures Fits(Put(name, at, bytes), ext)
  {
  }

  lemma DigitsKeep(name: seq<byte>, at: nat, ext: seq<byte>)
    requires |ext| <= 3 && Fits(name, ext) && at <= 6
    ensures forall d :: 1 <= d <= 9 ==> Fits(DigitName(name, at, d), ext)
  {
    forall d | 1 <= d <= 9
      ensures Fits(DigitName(name, at, d), ext)
    {
      PutKeeps(name, at, [TILDE, 0x30 + d], ext);
    }
  }

  lemma TailsKeep(name: seq<byte>, at: nat, jiffies: int, ext: seq<byte>)
    requires |ext| <= 3 && Fits(name, ext) && at <= 4
    ensures forall t: nat :: t < 0x1_0000 ==> Fits(Put(name, at, Hex4(t)), ext)
  {
    forall t: nat | t < 0x1_0000
      ensures Fits(Put(name, at, Hex4(t)), ext)
    {
      PutKeeps(name, at, Hex4(t), ext);
    }
  }
}
