/** Names as byte strings and as 16-bit characters: the two translations of the driver, with its :hhhh escapes. */
module NameText {
  import opened Arithmetic
  import opened FatDefs
  import opened DirSlots
  import opened Directory
  import opened DirLaws
  import opened LongNames

  datatype Option<T> = None | Some(value: T)

  /** One character read from the front of a byte string, and the bytes it takes. */
  datatype Read = Read(uni: Uni, len: nat)

  /** A character set: char2uni, which may refuse, and uni2char, which gives no bytes for a character it lacks. */
  datatype Charset = Charset(char2uni: seq<byte> -> Option<Read>, uni2char: Uni -> seq<byte>)

  const COLON: byte := 0x3A
  const NLS_MAX_CHARSET_SIZE: nat := 6

  /** Reading takes at least one byte and no more than there are. */
  ghost predicate ReadsInside(nls: Charset) {
    forall s: seq<byte> :: s != [] && nls.char2uni(s).Some? ==> 0 < nls.char2uni(s).value.len <= |s|
  }

  function HexDigit(n: nat): byte
    requires n < 16
  {
    if n > 9 then n + (0x61 - 10) else n + 0x30
  }

  function HexValue(c: byte): Option<nat> {
    if 0x30 <= c <= 0x39 then Some(c - 0x30)
    else if 0x61 <= c <= 0x66 then Some(c - (0x61 - 10))
    else if 0x41 <= c <= 0x46 then Some(c - (0x41 - 10))
    else None
  }

  // ----- bytes to characters -----

  datatype Translation = Name(chars: seq<Uni>) | Bad(errno: Errno)

  /** The character at the front of s as xlate_to_uni reads it; no character set means one character per byte. */
  function ReadOne(s: seq<byte>, escape: bool, nls: Option<Charset>): Option<Read>
    requires s != []
  {
    if nls.None? then Some(Read(s[0], 1))
    else if escape && s[0] == COLON then
      if |s| < 5 || HexValue(s[1]).None? || HexValue(s[2]).None? || HexValue(s[3]).None?
          || HexValue(s[4]).None? then None
      else
        Some(Read(((HexValue(s[1]).value * 16 + HexValue(s[2]).value) * 16 + HexValue(s[3]).value) * 16
                  + HexValue(s[4]).value, 5))
    else nls.value.char2uni(s)
  }

  /** The characters of s, when n have been read before it: at most 256 in all. */
  function Translate(s: seq<byte>, n: nat, escape: bool, nls: Option<Charset>): Translation
    requires nls.Some? ==> ReadsInside(nls.value)
    decreases |s|
  {
    if s == [] then Name([])
    else if n > 255 then Bad(ENAMETOOLONG)
    else
      var r := ReadOne(s, escape, nls);
      if r.None? then Bad(EINVAL)
      else
        var rest := Translate(s[r.value.len..], n + 1, escape, nls);
        if rest.Bad? then rest else Name([r.value.uni] + rest.chars)
  }

  /** The padding of a name to whole slots: a terminator, then 0xFFFF. */
  function Padded(chars: seq<Uni>): (r: seq<Uni>)
    ensures |r| % 13 == 0
    ensures |chars| <= 256 ==> |r| <= 13 * MAX_LONG_SLOTS
    ensures chars != [] ==> r != []
  {
    if |chars| % 13 == 0 then chars
    else chars + [0] + seq((13 - (|chars| + 1) % 13) % 13, _ => 0xFFFF)
  }

  /** A padded name is the name, and a terminator unless the last slot is full. */
  lemma PaddedFacts(chars: seq<Uni>)
    ensures |chars| <= |Padded(chars)| < |chars| + 13 && Padded(chars)[..|chars|] == chars
    ensures |Padded(chars)| % 13 == 0
    ensures forall k :: |chars| <= k < |Padded(chars)| ==> Padded(chars)[k] == if k == |chars| then 0 else 0xFFFF
  {
  }

  function Prepend(out: seq<Uni>, t: Translation): Translation {
    if t.Bad? then t else Name(out + t.chars)
  }

  lemma TranslateStep(s: seq<byte>, out: seq<Uni>, escape: bool, nls: Option<Charset>)
    requires (nls.Some? ==> ReadsInside(nls.value)) && s != [] && |out| <= 255
    ensures var r := ReadOne(s, escape, nls);
            && (r.None? ==> Prepend(out, Translate(s, |out|, escape, nls)) == Bad(EINVAL))
            && (r.Some? ==> 0 < r.value.len <= |s|
                            && Prepend(out, Translate(s, |out|, escape, nls))
                               == Prepend(out + [r.value.uni], Translate(s[r.value.len..], |out| + 1, escape, nls)))
  {
    hide ReadOne, ReadsInside, Translate, Prepend;
    ReadLength(s, escape, nls);
    TranslateUnfold(s, |out|, escape, nls);
    var r := ReadOne(s, escape, nls);
    if r.Some? {
      PrependChar(out, r.value.uni, Translate(s[r.value.len..], |out| + 1, escape, nls));
    } else {
      PrependBad(out, EINVAL);
    }
  }

  lemma TranslateUnfold(s: seq<byte>, n: nat, escape: bool, nls: Option<Charset>)
    requires (nls.Some? ==> ReadsInside(nls.value)) && s != [] && n <= 255
    ensures var r := ReadOne(s, escape, nls);
            && (r.None? ==> Translate(s, n, escape, nls) == Bad(EINVAL))
            && (r.Some? ==> 0 < r.value.len <= |s|
                            && Translate(s, n, escape, nls)
                               == Prepend([r.value.uni], Translate(s[r.value.len..], n + 1, escape, nls)))
  {
    hide ReadOne, ReadsInside;
    ReadLength(s, escape, nls);
  }

  lemma PrependChar(out: seq<Uni>, c: Uni, t: Translation)
    ensures Prepend(out, Prepend([c], t)) == Prepend(out + [c], t)
  {
    if t.Name? {
      assert out + ([c] + t.chars) == (out + [c]) + t.chars;
    }
  }

  lemma PrependBad(out: seq<Uni>, e: Errno)
    ensures Prepend(out, Bad(e)) == Bad(e)
  {
  }

  lemma ReadLength(s: seq<byte>, escape: bool, nls: Option<Charset>)
    requires (nls.Some? ==> ReadsInside(nls.value)) && s != []
    ensures ReadOne(s, escape, nls).Some? ==> 0 < ReadOne(s, escape, nls).value.len <= |s|
  {
  }

  /** The main loop of xlate_to_uni. */
  method ReadChars(name: seq<byte>, escape: bool, nls: Option<Charset>) returns (r: Translation)
    requires nls.Some? ==> ReadsInside(nls.value)
    ensures r == Translate(name, 0, escape, nls)
    ensures r.Name? ==> |r.chars| <= 256
  {
    hide Translate, ReadOne, Prepend, ReadsInside;
    var i, out: seq<Uni> := 0, [];
    assert name[0..] == name;
    NothingRead(Translate(name, 0, escape, nls));
    while i < |name| && |out| <= 255
      invariant 0 <= i <= |name| && |out| <= 256
      invariant Translate(name, 0, escape, nls) == Prepend(out, Translate(name[i..], |out|, escape, nls))
      decreases |name| - i
    {
      TranslateStep(name[i..], out, escape, nls);
      var c := ReadOne(name[i..], escape, nls);
      if c.None? {
        return Bad(EINVAL);
      }
      assert name[i..][c.value.len..] == name[i + c.value.len..];
      out, i := out + [c.value.uni], i + c.value.len;
    }
    LoopDone(name[i..], out, escape, nls);
    if i < |name| {
      return Bad(ENAMETOOLONG);
    }
    return Name(out);
  }

  lemma NothingRead(t: Translation)
    ensures Prepend([], t) == t
  {
  }

  lemma LoopDone(s: seq<byte>, out: seq<Uni>, escape: bool, nls: Option<Charset>)
    requires (nls.Some? ==> ReadsInside(nls.value)) && (s == [] || |out| > 255)
    ensures Prepend(out, Translate(s, |out|, escape, nls)) == if s == [] then Name(out) else Bad(ENAMETOOLONG)
  {
  }

  /** The padding at the end of xlate_to_uni. */
  method Pad(chars: seq<Uni>) returns (uname: seq<Uni>)
    ensures uname == Padded(chars)
  {
    uname := chars;
    if |uname| % 13 != 0 {
      uname := uname + [0];
      if |uname| % 13 != 0 {
        var fill := 13 - |uname| % 13;
        var i := 0;
        while i < fill
          invariant 0 <= i <= fill && uname == chars + [0] + seq(i, _ => 0xFFFF)
        {
          uname, i := uname + [0xFFFF], i + 1;
        }
      }
    }
  }

  /** xlate_to_uni; utf16 is what utf8s_to_utf16s makes of the name when the volume is mounted with utf8. */
  method XlateToUni(name: seq<byte>, utf16: Option<Translation>, escape: bool, nls: Option<Charset>)
    returns (st: Status, uname: seq<Uni>, longlen: nat)
    requires nls.Some? ==> ReadsInside(nls.value)
    ensures var t := if utf16.Some? then utf16.value else Translate(name, 0, escape, nls);
            && (st.Ok? <==> t.Name? && (utf16.Some? ==> |t.chars| <= 255))
            && (st.Ok? ==> longlen == |t.chars| <= 256 && uname == Padded(t.chars))
            && (t.Bad? ==> st == Err(t.errno)) && (t.Name? && st.Err? ==> st == Err(ENAMETOOLONG))
  {
    var t;
    if utf16.Some? {
      t := utf16.value;
      if t.Name? && |t.chars| > 255 {
        return Err(ENAMETOOLONG), [], 0;
      }
    } else {
      t := ReadChars(name, escape, nls);
    }
    if t.Bad? {
      return Err(t.errno), [], 0;
    }
    st, longlen := Ok, |t.chars|;
    uname := Pad(t.chars);
  }

  // ----- characters to bytes -----

  /** The bytes uni16_to_x8 writes for one character. */
  function WriteOne(c: Uni, escape: bool, nls: Charset): (s: seq<byte>)
    ensures s != []
  {
    if nls.uni2char(c) != [] then nls.uni2char(c)
    else if escape then [COLON, HexDigit(c / 4096), HexDigit(c / 256 % 16), HexDigit(c / 16 % 16), HexDigit(c % 16)]
    else [0x3F]
  }

  function Write(chars: seq<Uni>, escape: bool, nls: Charset): seq<byte> {
    if chars == [] then [] else WriteOne(chars[0], escape, nls) + Write(chars[1..], escape, nls)
  }

  /** The part of the buffer before its terminator. */
  function Text(buf: seq<Uni>): seq<Uni> {
    if buf == [] || buf[0] == 0 then [] else [buf[0]] + Text(buf[1..])
  }

  lemma {:induction false} WriteAppend(chars: seq<Uni>, c: Uni, escape: bool, nls: Charset)
    ensures Write(chars + [c], escape, nls) == Write(chars, escape, nls) + WriteOne(c, escape, nls)
  {
    if chars == [] {
      assert [c][1..] == [] && [] + [c] == [c];
      assert Write([c], escape, nls) == WriteOne(c, escape, nls) + Write([], escape, nls);
    } else {
      WriteAppend(chars[1..], c, escape, nls);
      assert (chars + [c])[1..] == chars[1..] + [c];
    }
  }

  /** The first k characters of a text are written, and all of them unless a buffer of len bytes has too little room. */
  ghost predicate Written(text: seq<Uni>, k: nat, ascii: seq<byte>, len: int, escape: bool, nls: Charset) {
    && k <= |text| && ascii == Write(text[..k], escape, nls)
    && (k < |text| ==> len - |ascii| <= NLS_MAX_CHARSET_SIZE)
  }

  /** No character becomes more bytes than the loop keeps room for. */
  ghost predicate Narrow(nls: Charset) {
    forall c: Uni :: |nls.uni2char(c)| <= NLS_MAX_CHARSET_SIZE
  }

  lemma WriteOneNarrow(c: Uni, escape: bool, nls: Charset)
    requires Narrow(nls)
    ensures |WriteOne(c, escape, nls)| <= NLS_MAX_CHARSET_SIZE
  {
  }

  /** uni16_to_x8: the text of uni, cut short when the buffer runs full; the buffer has room for it and its
      terminator. */
  method Uni16ToX8(uni: seq<Uni>, len: int, escape: bool, nls: Charset) returns (ascii: seq<byte>)
    requires 0 in uni
    ensures exists k: nat :: Written(Text(uni), k, ascii, len, escape, nls)
    ensures Narrow(nls) && len > 0 ==> |ascii| < len
  {
    hide WriteOne, Narrow;
    ghost var text := Text(uni);
    TextPrefix(uni);
    var i, left := 0, len;
    ascii := [];
    while uni[i] != 0 && left - NLS_MAX_CHARSET_SIZE > 0
      invariant 0 <= i <= |text| < |uni| && left == len - |ascii|
      invariant ascii == Write(text[..i], escape, nls)
      invariant Narrow(nls) && len > 0 ==> left > 0
      decreases |text| - i
    {
      var ec := uni[i];
      if Narrow(nls) {
        WriteOneNarrow(ec, escape, nls);
      }
      var bytes := WriteOne(ec, escape, nls);
      WriteAppend(text[..i], ec, escape, nls);
      assert text[..i + 1] == text[..i] + [ec];
      ascii, left, i := ascii + bytes, left - |bytes|, i + 1;
    }
    assert Written(text, i, ascii, len, escape, nls);
  }

  lemma {:induction false} TextPrefix(uni: seq<Uni>)
    ensures |Text(uni)| <= |uni| && Text(uni) == uni[..|Text(uni)|] && 0 !in Text(uni)
    ensures |Text(uni)| < |uni| ==> uni[|Text(uni)|] == 0
    ensures 0 in uni ==> |Text(uni)| < |uni|
  {
    if uni != [] && uni[0] != 0 {
      TextPrefix(uni[1..]);
    }
  }

  /** Reading back what was written for a character, whatever bytes follow. */
  ghost predicate ReadsBack(nls: Charset) {
    && ReadsInside(nls)
    && forall c: Uni, rest: seq<byte> :: nls.uni2char(c) != [] ==>
         && nls.char2uni(nls.uni2char(c) + rest) == Some(Read(c, |nls.uni2char(c)|))
         && (c != COLON ==> nls.uni2char(c)[0] != COLON)
  }

  lemma DigitReadsBack(n: nat)
    requires n < 16
    ensures HexValue(HexDigit(n)) == Some(n)
  {
  }

  lemma EscapeReadsBack(c: Uni, rest: seq<byte>, nls: Charset)
    requires nls.uni2char(c) == []
    ensures ReadOne(WriteOne(c, true, nls) + rest, true, Some(nls)) == Some(Read(c, |WriteOne(c, true, nls)|))
  {
    hide HexValue, HexDigit;
    Nibbles(c);
    DigitReadsBack(c / 4096);
    DigitReadsBack(c / 256 % 16);
    DigitReadsBack(c / 16 % 16);
    DigitReadsBack(c % 16);
  }

  lemma CharReadsBack(c: Uni, rest: seq<byte>, nls: Charset)
    requires ReadsBack(nls) && c != COLON
    ensures ReadOne(WriteOne(c, true, nls) + rest, true, Some(nls)) == Some(Read(c, |WriteOne(c, true, nls)|))
  {
    hide HexValue, HexDigit;
    if nls.uni2char(c) == [] {
      EscapeReadsBack(c, rest, nls);
    } else {
      assert (nls.uni2char(c) + rest)[0] == nls.uni2char(c)[0];
    }
  }

  /** With escapes on, a name without colons that is written out and translated again is the same name. */
  lemma {:induction false} TranslateWritten(chars: seq<Uni>, n: nat, nls: Charset)
    requires ReadsBack(nls) && COLON !in chars && n + |chars| <= 256
    ensures Translate(Write(chars, true, nls), n, true, Some(nls)) == Name(chars)
    decreases |chars|
  {
    hide ReadOne, WriteOne, ReadsInside;
    if chars != [] {
      var c, rest := chars[0], Write(chars[1..], true, nls);
      var w := WriteOne(c, true, nls);
      CharReadsBack(c, rest, nls);
      assert (w + rest)[|w|..] == rest;
      TranslateWritten(chars[1..], n + 1, nls);
    }
  }

  const QUESTION: byte := 0x3F

  /** What is left of a text without escapes: a question mark for each character the set lacks. */
  function Kept(chars: seq<Uni>, nls: Charset): (r: seq<Uni>)
    ensures |r| == |chars|
    ensures forall i :: 0 <= i < |r| ==> r[i] == if nls.uni2char(chars[i]) != [] then chars[i] else QUESTION
  {
    seq(|chars|, i requires 0 <= i < |chars| => if nls.uni2char(chars[i]) != [] then chars[i] else QUESTION)
  }

  lemma PlainReadsBack(c: Uni, rest: seq<byte>, nls: Charset)
    requires ReadsBack(nls) && nls.uni2char(QUESTION) == [QUESTION]
    ensures var w := WriteOne(c, false, nls);
            ReadOne(w + rest, false, Some(nls)) == Some(Read(Kept([c], nls)[0], |w|))
  {
    if nls.uni2char(c) == [] {
      assert nls.char2uni(nls.uni2char(QUESTION) + rest) == Some(Read(QUESTION, 1));
    }
  }

  /** With escapes off, the characters the set has come back, and the others as question marks. */
  lemma {:induction false} TranslatePlain(chars: seq<Uni>, n: nat, nls: Charset)
    requires ReadsBack(nls) && nls.uni2char(QUESTION) == [QUESTION] && n + |chars| <= 256
    ensures Translate(Write(chars, false, nls), n, false, Some(nls)) == Name(Kept(chars, nls))
    decreases |chars|
  {
    hide ReadOne, WriteOne, ReadsInside, Kept;
    if chars != [] {
      var c, rest := chars[0], Write(chars[1..], false, nls);
      var w := WriteOne(c, false, nls);
      PlainReadsBack(c, rest, nls);
      assert (w + rest)[|w|..] == rest;
      TranslatePlain(chars[1..], n + 1, nls);
      assert [Kept([c], nls)[0]] + Kept(chars[1..], nls) == Kept(chars, nls);
    } else {
      assert Kept(chars, nls) == [];
    }
  }

  // ----- a name stored and read -----

  lemma {:induction false} TextOf(buf: seq<Uni>, chars: seq<Uni>)
    requires |chars| < |buf| && buf[..|chars|] == chars && buf[|chars|] == 0 && 0 !in chars
    ensures Text(buf) == chars
  {
    if chars != [] {
      assert buf[0] == chars[0] && buf[1..][..|chars| - 1] == chars[1..];
      TextOf(buf[1..], chars[1..]);
    }
  }

  /** The padded name with a terminator behind it reads as the name. */
  lemma PaddedText(chars: seq<Uni>, buf: seq<Uni>)
    requires 0 !in chars
    requires var padded := Padded(chars); |padded| < |buf| && buf[..|padded|] == padded && buf[|padded|] == 0
    ensures Text(buf) == chars
  {
    PaddedFacts(chars);
    var padded := Padded(chars);
    assert buf[..|chars|] == padded[..|chars|];
    assert |padded| > |chars| ==> buf[|chars|] == buf[..|padded|][|chars|];
    TextOf(buf, chars);
  }

  /** Every name of at most 256 characters without a NUL: once its slots are added to a readable directory, reading at
      the first of them gives the same characters, the number of slots, and the short entry behind them. */
  lemma NameRoundTrip(v: Pass, was: seq<Slot>, now: seq<Slot>, chars: seq<Uni>, short: Slot, es: seq<Slot>,
      slotOff: int, last: nat, perCluster: nat, w: Pass, n: nat, buf: seq<Uni>)
    requires v.spb > 0 && Clean(v, |was|) && w.spb > 0 && Clean(w, |now|) && perCluster > 0
    requires 0 < |chars| <= 256 && 0 !in chars && ShortEntry(short)
    requires es == Built(Padded(chars), Checksum(DirName(short))) + [short]
    requires Added(Start(v, was, |es|), was, now, es, slotOff, last, perCluster)
    ensures 0 <= slotOff && !NoLongName(w, now, slotOff)
    ensures LongName(w, now, slotOff, n) && Spelled(w, now, slotOff, n, buf) ==>
              && n == |es| - 1 && At(w, slotOff, n) == last < |now| && now[last] == short
              && SlotsReported(now, slotOff, n, last) == n && Text(buf) == chars
  {
    hide LongName, Built, Spelled, Checksum, Added, Padded, ShortEntry, FindRun;
    PaddedFacts(chars);
    var padded, cks := Padded(chars), Checksum(DirName(short));
    var k := |padded| / 13;
    AddFirstFit(v, was, now, es, slotOff, last, perCluster);
    assert now[slotOff..slotOff + |es|][..k] == now[slotOff..slotOff + k] && es[..k] == Built(padded, cks);
    assert now[slotOff..slotOff + |es|][k] == now[slotOff + k] == short;
    StoredIsLongName(w, now, slotOff, padded, cks);
    if LongName(w, now, slotOff, n) && Spelled(w, now, slotOff, n, buf) {
      StoredReadsBack(w, now, slotOff, padded, cks, n, buf);
      PaddedText(chars, buf);
    }
  }
}
