/** 8.3 names without long names: how msdos formats a name, and how a directory listing prints it. */
module MsdosNames {
  import opened Arithmetic
  import opened FatDefs
  import opened DirSlots
  import opened ShortNames

  datatype NameCheck = Relaxed | Normal | Strict

  datatype Options = Options(check: NameCheck, dotsOK: bool, nocase: bool)

  const DOT_BYTE: byte := 0x2E
  const STAND_IN: byte := 0x05

  predicate BadChar(c: byte) {
    c in {0x2A, 0x3F, 0x3C, 0x3E, 0x7C, 0x22}
  }

  predicate BadIfStrict(c: byte) {
    c in {0x2B, 0x3D, 0x2C, 0x3B, 0x20}
  }

  predicate IsUpper(c: byte) { 0x41 <= c <= 0x5A }
  predicate IsLower(c: byte) { 0x61 <= c <= 0x7A }

  predicate CharOk(o: Options, c: byte) {
    && (o.check != Relaxed ==> !BadChar(c))
    && (o.check == Strict ==> !BadIfStrict(c) && !IsUpper(c))
    && c >= SPACE && c != 0x3A && c != 0x5C
  }

  function Upper(o: Options, c: byte): byte {
    if !o.nocase && IsLower(c) then c - 32 else c
  }

  function Lower(o: Options, c: byte): byte {
    if !o.nocase && IsUpper(c) then c + 32 else c
  }

  // ----- msdos_format_name -----

  /** The first bytes of a name, up to a dot and no more than max. */
  function Prefix(n: seq<byte>, max: nat): (r: seq<byte>)
    ensures |r| <= max && r <= n && DOT_BYTE !in r
  {
    if n == [] || max == 0 || n[0] == DOT_BYTE then [] else [n[0]] + Prefix(n[1..], max - 1)
  }

  /** What follows the first dot. */
  datatype Tail = NoDot | After(rest: seq<byte>)

  function AfterDot(n: seq<byte>): Tail {
    if n == [] then NoDot else if n[0] == DOT_BYTE then After(n[1..]) else AfterDot(n[1..])
  }

  /** Bytes that may be stored as a base or an extension: each allowed, and no space at the end. */
  predicate PartAllowed(o: Options, s: seq<byte>) {
    (forall i :: 0 <= i < |s| ==> CharOk(o, s[i])) && (s != [] ==> s[|s| - 1] != SPACE)
  }

  function Stored(o: Options, s: seq<byte>): (r: seq<byte>)
    ensures |r| == |s|
  {
    seq(|s|, i requires 0 <= i < |s| => Upper(o, s[i]))
  }

  /** The base as stored: upper case, and 0x05 for 0xE5 in front. */
  function StoredBase(o: Options, b: seq<byte>): (r: seq<byte>)
    ensures |r| == |b|
  {
    if b != [] && b[0] == DELETED_FLAG then Stored(o, b)[0 := STAND_IN] else Stored(o, b)
  }

  datatype Formatting = Reject | Accept(name: seq<byte>)

  /** What the parts of a name come to, its leading dot taken off. */
  function FormatParts(o: Options, n: seq<byte>): Formatting {
    var b := Prefix(n, 8);
    var rest := n[|b|..];
    if b == [] || !PartAllowed(o, b) || (o.check == Strict && rest != [] && rest[0] != DOT_BYTE) then Reject
    else
      match AfterDot(rest)
      case NoDot => Accept(Formatted(StoredBase(o, b), []))
      case After(s) =>
        var e := Prefix(s, 3);
        if !PartAllowed(o, e) || (o.check == Strict && |s| != |e|) then Reject
        else Accept(Formatted(StoredBase(o, b), Stored(o, e)))
  }

  function Format(o: Options, name: seq<byte>): Formatting
    requires name != []
  {
    if name[0] != DOT_BYTE then FormatParts(o, name)
    else if o.dotsOK then FormatParts(o, name[1..])
    else Reject
  }

  // ----- the name in a listing -----

  function UpToZero(s: seq<byte>): seq<byte> {
    if s == [] || s[0] == 0 then [] else [s[0]] + UpToZero(s[1..])
  }

  function Trimmed(s: seq<byte>): (r: seq<byte>)
    ensures r <= s && (r != [] ==> r[|r| - 1] != SPACE)
    ensures forall i :: |r| <= i < |s| ==> s[i] == SPACE
  {
    if s == [] || s[|s| - 1] != SPACE then s else Trimmed(s[..|s| - 1])
  }

  function Shown(o: Options, s: seq<byte>): (r: seq<byte>)
    ensures |r| == |s|
  {
    seq(|s|, i requires 0 <= i < |s| => Lower(o, s[i]))
  }

  /** What __fat_readdir prints for the 11 bytes of an entry, with isvfat off and a single-byte character set; nothing
      for an entry without a name. */
  function Print(o: Options, res: seq<byte>, hidden: bool): seq<byte>
    requires |res| == MSDOS_NAME
  {
    var work := if res[0] == STAND_IN then res[0 := DELETED_FLAG] else res;
    var base := Shown(o, Trimmed(UpToZero(work[..8])));
    var ext := Shown(o, Trimmed(UpToZero(work[8..])));
    if base == [] && ext == [] then []
    else (if o.dotsOK && hidden then [DOT_BYTE] else []) + base + (if ext == [] then [] else [DOT_BYTE] + ext)
  }

  // ----- the loops -----

  lemma {:induction false} PrefixIs(n: seq<byte>, max: nat, i: nat)
    requires i <= max && i <= |n| && DOT_BYTE !in n[..i] && (i == max || i == |n| || n[i] == DOT_BYTE)
    ensures Prefix(n, max) == n[..i]
  {
    if i > 0 {
      assert n[..i][0] == n[0] && n[1..][..i - 1] == n[..i][1..];
      PrefixIs(n[1..], max - 1, i - 1);
    }
  }

  lemma {:induction false} PrefixHas(n: seq<byte>, max: nat, i: nat)
    requires i < max && i < |n| && DOT_BYTE !in n[..i + 1]
    ensures |Prefix(n, max)| > i && Prefix(n, max)[i] == n[i]
  {
    assert n[..i + 1][0] == n[0];
    if i > 0 {
      assert n[1..][..i] == n[..i + 1][1..];
      PrefixHas(n[1..], max - 1, i - 1);
    }
  }

  lemma {:induction false} AfterDotIs(n: seq<byte>, i: nat)
    requires i <= |n| && DOT_BYTE !in n[..i]
    ensures AfterDot(n) ==
              if i == |n| then NoDot else if n[i] == DOT_BYTE then After(n[i + 1..]) else AfterDot(n[i + 1..])
  {
    if i > 0 {
      assert n[..i][0] == n[0] && n[1..][..i - 1] == n[..i][1..];
      AfterDotIs(n[1..], i - 1);
    }
  }

  lemma StoreNext(o: Options, s: seq<byte>, c: byte, isBase: bool)
    ensures var c' := if isBase && s == [] && c == DELETED_FLAG then STAND_IN else c;
            (if isBase then StoredBase(o, s + [c]) else Stored(o, s + [c]))
            == (if isBase then StoredBase(o, s) else Stored(o, s)) + [Upper(o, c')]
  {
    assert Stored(o, s + [c]) == Stored(o, s) + [Upper(o, c)];
  }

  /** The loops over base and extension: up to max allowed bytes of n from position 0 to a dot or the end. */
  method TakePart(o: Options, n: seq<byte>, max: nat, isBase: bool) returns (ok: bool, walk: seq<byte>)
    ensures ok <==> PartAllowed(o, Prefix(n, max))
    ensures ok ==> walk == if isBase then StoredBase(o, Prefix(n, max)) else Stored(o, Prefix(n, max))
  {
    hide CharOk, Prefix, Upper, StoredBase, Stored;
    NothingStored(o);
    assert n[..0] == [];
    var i, space := 0, false;
    walk := [];
    while i < |n| && i < max && n[i] != DOT_BYTE
      invariant 0 <= i <= |n| && i <= max && DOT_BYTE !in n[..i]
      invariant forall k :: 0 <= k < i ==> CharOk(o, n[k])
      invariant walk == if isBase then StoredBase(o, n[..i]) else Stored(o, n[..i])
      invariant space <==> i > 0 && n[i - 1] == SPACE
    {
      var c := n[i];
      PrefixHas(n, max, i);
      if !CharOk(o, c) {
        return false, walk;
      }
      if isBase && i == 0 && c == DELETED_FLAG {
        c := STAND_IN;
      }
      space := n[i] == SPACE;
      StoreNext(o, n[..i], n[i], isBase);
      assert n[..i + 1] == n[..i] + [n[i]];
      walk := walk + [Upper(o, c)];
      i := i + 1;
    }
    PrefixIs(n, max, i);
    ok := !space;
  }

  /** msdos_format_name. */
  method FormatName(o: Options, name: seq<byte>) returns (r: Formatting)
    requires name != []
    ensures r == Format(o, name)
  {
    hide PartAllowed, StoredBase, Stored, Formatted, Prefix, AfterDot;
    var n := name;
    if name[0] == DOT_BYTE {
      if !o.dotsOK {
        return Reject;
      }
      n := name[1..];
    }
    var ok, base := TakePart(o, n, 8, true);
    PartLength(o, Prefix(n, 8));
    PrefixEmpty(n);
    if !ok || n == [] || n[0] == DOT_BYTE {
      return Reject;
    }
    var i := |base|;
    if o.check == Strict && i < |n| && n[i] != DOT_BYTE {
      return Reject;
    }
    var dot;
    dot, i := SkipToDot(n, i);
    if !dot {
      return Accept(Formatted(base, []));
    }
    var ext;
    ok, ext := TakePart(o, n[i..], 3, false);
    PartLength(o, Prefix(n[i..], 3));
    if !ok || (o.check == Strict && i + |ext| < |n|) {
      return Reject;
    }
    r := Accept(Formatted(base, ext));
  }

  /** The loop that passes over the rest of a base that is too long. */
  method SkipToDot(n: seq<byte>, from: nat) returns (dot: bool, i: nat)
    requires from <= |n|
    ensures i <= |n| && AfterDot(n[from..]) == if dot then After(n[i..]) else NoDot
  {
    ghost var rest := n[from..];
    i := from;
    while i < |n|
      invariant from <= i <= |n| && DOT_BYTE !in rest[..i - from]
    {
      AfterDotIs(rest, i - from);
      i := i + 1;
      if n[i - 1] == DOT_BYTE {
        assert rest[i - from..] == n[i..];
        return true, i;
      }
    }
    AfterDotIs(rest, |rest|);
    dot := false;
  }

  lemma PrefixEmpty(n: seq<byte>)
    ensures Prefix(n, 8) == [] <==> n == [] || n[0] == DOT_BYTE
  {
  }

  lemma PartLength(o: Options, s: seq<byte>)
    ensures |StoredBase(o, s)| == |s| && |Stored(o, s)| == |s|
    ensures StoredBase(o, []) == []
  {
  }

  /** One half of the printing in __fat_readdir: the bytes of a field up to a zero, shown, and how many of them come
      before its trailing spaces. */
  method PrintPart(o: Options, field: seq<byte>) returns (text: seq<byte>, last: nat)
    ensures text == Shown(o, UpToZero(field)) && last == |Trimmed(UpToZero(field))|
    ensures last <= |text| && text[..last] == Shown(o, Trimmed(UpToZero(field)))
  {
    var i := 0;
    text, last := [], 0;
    while i < |field| && field[i] != 0
      invariant 0 <= i <= |field| && 0 !in field[..i]
      invariant text == Shown(o, field[..i]) && last == |Trimmed(field[..i])|
    {
      text := text + [Lower(o, field[i])];
      i := i + 1;
      assert field[..i][..i - 1] == field[..i - 1];
      if field[i - 1] != SPACE {
        last := i;
      }
    }
    UpToZeroIs(field, i);
  }

  lemma {:induction false} UpToZeroIs(s: seq<byte>, i: nat)
    requires i <= |s| && 0 !in s[..i] && (i == |s| || s[i] == 0)
    ensures UpToZero(s) == s[..i]
  {
    if i > 0 {
      assert s[..i][0] == s[0] && s[1..][..i - 1] == s[..i][1..];
      UpToZeroIs(s[1..], i - 1);
    }
  }

  /** The name printed for a short entry. */
  method PrintName(o: Options, res: seq<byte>, hidden: bool) returns (name: seq<byte>)
    requires |res| == MSDOS_NAME
    ensures name == Print(o, res, hidden)
  {
    hide Shown, Trimmed, UpToZero;
    var work := res;
    if work[0] == STAND_IN {
      work := work[0 := DELETED_FLAG];
    }
    var base, last := PrintPart(o, work[..8]);
    var ptname := base[..last] + [DOT_BYTE];
    var ext, lastExt := PrintPart(o, work[8..]);
    ghost var b, e := Shown(o, Trimmed(UpToZero(work[..8]))), Shown(o, Trimmed(UpToZero(work[8..])));
    assert base[..last] == b && ext[..lastExt] == e;
    ptname := ptname + ext;
    if lastExt > 0 {
      last := last + 1 + lastExt;
      assert ptname[..last] == b + ([DOT_BYTE] + e);
    } else {
      assert ptname[..last] == b && e == [];
    }
    if last == 0 {
      return [];
    }
    name := (if o.dotsOK && hidden then [DOT_BYTE] else []) + ptname[..last];
  }

  // ----- printing and formatting again -----

  lemma {:induction false} TrimmedIs(s: seq<byte>, i: nat)
    requires i <= |s| && (i > 0 ==> s[i - 1] != SPACE) && forall k :: i <= k < |s| ==> s[k] == SPACE
    ensures Trimmed(s) == s[..i]
    decreases |s|
  {
    if i < |s| {
      TrimmedIs(s[..|s| - 1], i);
      assert s[..|s| - 1][..i] == s[..i];
    } else {
      assert s[..i] == s;
    }
  }

  /** A field that holds a part and spaces after it prints as the part. */
  lemma FieldPrints(part: seq<byte>, field: seq<byte>)
    requires |part| <= |field| && field[..|part|] == part && 0 !in part && (part != [] ==> part[|part| - 1] != SPACE)
    requires forall k :: |part| <= k < |field| ==> field[k] == SPACE
    ensures Trimmed(UpToZero(field)) == part
  {
    forall k | 0 <= k < |field|
      ensures field[k] != 0
    {
      if k < |part| {
        assert part[k] in part;
      }
    }
    assert field[..|field|] == field;
    UpToZeroIs(field, |field|);
    TrimmedIs(field, |part|);
  }

  /** Showing and storing again changes nothing in what was stored from allowed bytes, and the bytes stay allowed. */
  lemma ShownAgain(o: Options, c: byte)
    requires CharOk(o, c)
    ensures CharOk(o, Lower(o, Upper(o, c))) && Upper(o, Lower(o, Upper(o, c))) == Upper(o, c)
    ensures (Lower(o, Upper(o, c)) == SPACE <==> c == SPACE) && (Lower(o, Upper(o, c)) == DOT_BYTE <==> c == DOT_BYTE)
    ensures Upper(o, c) == SPACE <==> c == SPACE
    ensures Upper(o, c) != 0 && Upper(o, c) != STAND_IN
    ensures (c == DELETED_FLAG <==> Upper(o, c) == DELETED_FLAG)
              && (c == DELETED_FLAG <==> Lower(o, Upper(o, c)) == DELETED_FLAG)
  {
  }

  /** The part as it is printed: allowed again, stored as the same bytes, and without dots. */
  lemma PartAgain(o: Options, s: seq<byte>)
    requires PartAllowed(o, s) && DOT_BYTE !in s
    ensures var p := Shown(o, Stored(o, s));
            && |p| == |s| && PartAllowed(o, p) && Stored(o, p) == Stored(o, s) && DOT_BYTE !in p
            && (s != [] ==> (p[0] == DELETED_FLAG <==> s[0] == DELETED_FLAG))
            && 0 !in Stored(o, s) && STAND_IN !in Stored(o, s) && (s != [] ==> Stored(o, s)[|s| - 1] != SPACE)
            && (s != [] ==> (Stored(o, s)[0] == DELETED_FLAG <==> s[0] == DELETED_FLAG))
  {
    hide CharOk, Upper, Lower;
    var p := Shown(o, Stored(o, s));
    forall i | 0 <= i < |s|
      ensures CharOk(o, p[i]) && Upper(o, p[i]) == Upper(o, s[i]) && p[i] != DOT_BYTE
      ensures Stored(o, s)[i] != 0 && Stored(o, s)[i] != STAND_IN
      ensures (Stored(o, s)[i] == SPACE <==> s[i] == SPACE) && (p[i] == SPACE <==> s[i] == SPACE)
      ensures (Stored(o, s)[i] == DELETED_FLAG <==> s[i] == DELETED_FLAG)
                && (p[i] == DELETED_FLAG <==> s[i] == DELETED_FLAG)
    {
      ShownAgain(o, s[i]);
      assert s[i] in s;
    }
  }

  /** The text of two parts. */
  function Joined(b: seq<byte>, e: seq<byte>): seq<byte> {
    b + if e == [] then [] else [DOT_BYTE] + e
  }

  /** Parts without dots come back out of their text. */
  lemma PartsOfText(b: seq<byte>, e: seq<byte>)
    requires 0 < |b| <= 8 && |e| <= 3 && DOT_BYTE !in b && DOT_BYTE !in e
    ensures var n := Joined(b, e);
            && Prefix(n, 8) == b && n[|b|..] == (if e == [] then [] else [DOT_BYTE] + e)
            && AfterDot(n[|b|..]) == (if e == [] then NoDot else After(e)) && Prefix(e, 3) == e
  {
    hide Prefix, AfterDot;
    var n := Joined(b, e);
    assert n[..|b|] == b;
    PrefixIs(n, 8, |b|);
    var rest := n[|b|..];
    assert rest[..0] == [];
    AfterDotIs(rest, 0);
    assert e != [] ==> rest[1..] == e;
    assert e[..|e|] == e;
    PrefixIs(e, 3, |e|);
  }

  /** What printing makes of formatted parts. */
  lemma PrintParts(o: Options, b: seq<byte>, e: seq<byte>, hidden: bool)
    requires 0 < |b| <= 8 && |e| <= 3 && DOT_BYTE !in b && DOT_BYTE !in e && PartAllowed(o, b) && PartAllowed(o, e)
    ensures Print(o, Formatted(StoredBase(o, b), Stored(o, e)), hidden)
            == (if o.dotsOK && hidden then [DOT_BYTE] else []) + Joined(Shown(o, Stored(o, b)), Shown(o, Stored(o, e)))
  {
    hide PartAllowed, Stored, StoredBase, Shown, Formatted, Trimmed, UpToZero;
    PartAgain(o, b);
    PartAgain(o, e);
    NothingShown(o, Stored(o, e));
    NothingShown(o, Stored(o, b));
    var res := Formatted(StoredBase(o, b), Stored(o, e));
    var work := if res[0] == STAND_IN then res[0 := DELETED_FLAG] else res;
    WorkFields(o, b, e);
    FieldPrints(Stored(o, b), work[..8]);
    FieldPrints(Stored(o, e), work[8..]);
  }

  /** The fields of an entry with the stand-in for 0xE5 taken out again. */
  lemma WorkFields(o: Options, b: seq<byte>, e: seq<byte>)
    requires 0 < |b| <= 8 && |e| <= 3 && STAND_IN !in Stored(o, b)
    requires Stored(o, b)[0] == DELETED_FLAG <==> b[0] == DELETED_FLAG
    ensures var res := Formatted(StoredBase(o, b), Stored(o, e));
            var work := if res[0] == STAND_IN then res[0 := DELETED_FLAG] else res;
            && work[..8][..|b|] == Stored(o, b) && (forall k :: |b| <= k < 8 ==> work[..8][k] == SPACE)
            && work[8..][..|e|] == Stored(o, e) && (forall k :: |e| <= k < 3 ==> work[8..][k] == SPACE)
  {
    hide Stored;
    var base, ext := Stored(o, b), Stored(o, e);
    var res := Formatted(StoredBase(o, b), ext);
    var work := if res[0] == STAND_IN then res[0 := DELETED_FLAG] else res;
    assert base[0] in base;
    forall i | 0 <= i < 8
      ensures work[i] == if i < |b| then base[i] else SPACE
    {
    }
    forall i | 0 <= i < 3
      ensures work[8 + i] == if i < |e| then ext[i] else SPACE
    {
    }
  }

  /** Every accepted name: the listing prints a name that the same options accept, and it formats to the same 11 bytes;
      with a dot in front exactly when the name had one. */
  lemma FormatPrintFormat(o: Options, name: seq<byte>)
    requires name != [] && Format(o, name).Accept?
    ensures var res := Format(o, name).name;
            |res| == MSDOS_NAME && Print(o, res, name[0] == DOT_BYTE) != []
            && Format(o, Print(o, res, name[0] == DOT_BYTE)) == Accept(res)
            && Usable(res)
  {
    hide PartAllowed, Stored, StoredBase, Shown, Prefix, AfterDot, Formatted, Print, Usable;
    var n := if name[0] == DOT_BYTE then name[1..] else name;
    var b := Prefix(n, 8);
    var t := AfterDot(n[|b|..]);
    var e := if t.NoDot? then [] else Prefix(t.rest, 3);
    NothingStored(o);
    PartAgain(o, b);
    PartAgain(o, e);
    PrintParts(o, b, e, name[0] == DOT_BYTE);
    var p, q := Shown(o, Stored(o, b)), Shown(o, Stored(o, e));
    NothingShown(o, Stored(o, e));
    FormatsAgain(o, b, e, p, q);
    if name[0] == DOT_BYTE {
      assert ([DOT_BYTE] + Joined(p, q))[1..] == Joined(p, q);
    } else {
      assert [] + Joined(p, q) == Joined(p, q);
      assert p[0] in p;
    }
    UsableStored(o, b, e);
  }

  /** Allowed parts and their printed form have the same stored form. */
  lemma FormatsAgain(o: Options, b: seq<byte>, e: seq<byte>, p: seq<byte>, q: seq<byte>)
    requires 0 < |p| == |b| <= 8 && |q| == |e| <= 3 && DOT_BYTE !in p && DOT_BYTE !in q
    requires PartAllowed(o, p) && PartAllowed(o, q) && Stored(o, p) == Stored(o, b) && Stored(o, q) == Stored(o, e)
    requires p[0] == DELETED_FLAG <==> b[0] == DELETED_FLAG
    ensures FormatParts(o, Joined(p, q)) == Accept(Formatted(StoredBase(o, b), Stored(o, e)))
  {
    hide PartAllowed, Stored, StoredBase, Prefix, AfterDot, Formatted, Joined;
    NothingStored(o);
    PartsOfText(p, q);
    StoredBaseAgain(o, b, p);
  }

  lemma NothingShown(o: Options, s: seq<byte>)
    ensures Shown(o, s) == [] <==> s == []
  {
  }

  lemma NothingStored(o: Options)
    ensures Stored(o, []) == [] && StoredBase(o, []) == [] && PartAllowed(o, [])
  {
  }

  lemma StoredBaseAgain(o: Options, b: seq<byte>, p: seq<byte>)
    requires b != [] && |p| == |b| && Stored(o, p) == Stored(o, b) && (p[0] == DELETED_FLAG <==> b[0] == DELETED_FLAG)
    ensures StoredBase(o, p) == StoredBase(o, b)
  {
  }

  lemma UsableStored(o: Options, b: seq<byte>, e: seq<byte>)
    requires 0 < |b| <= 8 && |e| <= 3 && 0 !in Stored(o, b) && 0 !in Stored(o, e)
    requires Stored(o, b)[0] == DELETED_FLAG <==> b[0] == DELETED_FLAG
    ensures Usable(Formatted(StoredBase(o, b), Stored(o, e)))
  {
    assert Stored(o, b)[0] in Stored(o, b);
  }

  /** The stand-in that vfat puts in front of an alias is what the listing takes away again. */
  lemma EscapedShown(o: Options, base: seq<byte>, ext: seq<byte>, hidden: bool)
    requires 0 < |base| <= 8 && |ext| <= 3 && base[0] != STAND_IN && 0 !in base && 0 !in ext
    requires base[|base| - 1] != SPACE && (ext != [] ==> ext[|ext| - 1] != SPACE)
    ensures Print(o, Formatted(Escaped(base), ext), hidden)
            == (if o.dotsOK && hidden then [DOT_BYTE] else []) + Joined(Shown(o, base), Shown(o, ext))
  {
    hide Shown, Trimmed, UpToZero;
    var res := Formatted(Escaped(base), ext);
    var work := if res[0] == STAND_IN then res[0 := DELETED_FLAG] else res;
    assert work[..8] == base + seq(8 - |base|, _ => SPACE);
    assert work[8..] == ext + seq(3 - |ext|, _ => SPACE);
    FieldPrints(base, work[..8]);
    FieldPrints(ext, work[8..]);
    NothingShown(o, base);
    NothingShown(o, ext);
  }

  // ----- which names are accepted -----

  /** The first dot of n is at i, or there is none and i is its length. */
  predicate DotAt(n: seq<byte>, i: nat) {
    i <= |n| && DOT_BYTE !in n[..i] && (i < |n| ==> n[i] == DOT_BYTE)
  }

  /** The base is what comes before the first dot, up to eight bytes, and the extension what comes between it and the
      next one, up to three. A name is refused for an empty base, for a byte or a last space in one of these, and by the
      strict check for anything else in it; what is accepted is the two as stored. */
  lemma FormatMeans(o: Options, n: seq<byte>, i: nat, s: seq<byte>, j: nat)
    requires DotAt(n, i) && s == (if i < |n| then n[i + 1..] else []) && DotAt(s, j)
    ensures var b, e := n[..Min(i, 8)], s[..Min(j, 3)];
            FormatParts(o, n) ==
              if i == 0 || !PartAllowed(o, b) || !PartAllowed(o, e)
                  || (o.check == Strict && (i > 8 || |s| > |e|)) then Reject
              else Accept(Formatted(StoredBase(o, b), Stored(o, e)))
  {
    hide PartAllowed, StoredBase, Stored, Formatted, Prefix, AfterDot;
    var k := Min(i, 8);
    assert n[..i][..k] == n[..k];
    PrefixIs(n, 8, k);
    var rest := n[k..];
    assert rest[..i - k] == n[..i][k..];
    assert i < |n| ==> rest[i - k] == n[i] && rest[i - k + 1..] == s;
    AfterDotIs(rest, i - k);
    var l := Min(j, 3);
    assert s[..j][..l] == s[..l];
    PrefixIs(s, 3, l);
    NothingStored(o);
  }

  /** A stricter check refuses more, and changes nothing it accepts. */
  lemma StricterRefusesMore(nocase: bool, dotsOK: bool, n: seq<byte>)
    ensures var strict, normal, relaxed :=
              Options(Strict, dotsOK, nocase), Options(Normal, dotsOK, nocase), Options(Relaxed, dotsOK, nocase);
            && (FormatParts(strict, n).Accept? ==> FormatParts(normal, n) == FormatParts(strict, n))
            && (FormatParts(normal, n).Accept? ==> FormatParts(relaxed, n) == FormatParts(normal, n))
  {
    hide Prefix, AfterDot, Formatted;
    var strict, normal, relaxed :=
      Options(Strict, dotsOK, nocase), Options(Normal, dotsOK, nocase), Options(Relaxed, dotsOK, nocase);
    forall s: seq<byte>
      ensures Stored(strict, s) == Stored(normal, s) == Stored(relaxed, s)
      ensures StoredBase(strict, s) == StoredBase(normal, s) == StoredBase(relaxed, s)
    {
    }
  }
}
