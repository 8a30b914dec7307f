/** 8.3 names: how a C string becomes the 11-byte directory field and how the field is rendered. */
module FatNames {
  import opened Arithmetic
  import opened Bytes

  const SPACE: byte := 32
  const DOT: byte := 46

  /** A NUL-terminated C string is the sequence of its non-zero bytes. */
  predicate IsCString(s: seq<byte>) {
    0 !in s
  }

  /** The position of the first `x`, or |s|. */
  function Index(s: seq<byte>, x: byte): (i: nat)
    ensures i <= |s|
    ensures x !in s[..i]
    ensures i < |s| ==> s[i] == x
  {
    if s == [] || s[0] == x then 0
    else
      var i := Index(s[1..], x);
      assert s[..i + 1] == [s[0]] + s[1..][..i];
      i + 1
  }

  lemma {:induction false} IndexUnique(s: seq<byte>, x: byte, i: nat)
    requires i <= |s| && (forall k :: 0 <= k < i ==> s[k] != x) && (i < |s| ==> s[i] == x)
    ensures Index(s, x) == i
  {
    var j := Index(s, x);
    assert forall k :: 0 <= k < j ==> s[..j][k] == s[k] && s[k] != x;
  }

  function CString(s: seq<byte>): (r: seq<byte>)
    ensures IsCString(r)
  {
    s[..Index(s, 0)]
  }

  lemma {:induction false} CStringIdentity(s: seq<byte>)
    requires IsCString(s)
    ensures CString(s) == s
  {
    IndexUnique(s, 0, |s|);
  }

  function Upper(c: byte): (u: byte)
    ensures !(97 <= u <= 122)
    ensures u == SPACE <==> c == SPACE
    ensures u == DOT <==> c == DOT
    ensures u == 0 <==> c == 0
  {
    if 97 <= c <= 122 then c - 32 else c
  }

  function UpperAll(s: seq<byte>): (r: seq<byte>)
    ensures |r| == |s|
    ensures forall i :: 0 <= i < |s| ==> r[i] == Upper(s[i])
  {
    seq(|s|, i requires 0 <= i < |s| => Upper(s[i]))
  }

  function Pad(s: seq<byte>, n: nat): (r: seq<byte>)
    requires |s| <= n
    ensures |r| == n
  {
    s + seq(n - |s|, _ => SPACE)
  }

  /** How many characters go to the base part. */
  function BaseLength(name: seq<byte>): nat {
    Min(8, Index(name, DOT))
  }

  /** Where the extension is read from: behind the base, skipping one dot. */
  function ExtensionStart(name: seq<byte>): (e: nat)
    ensures e <= |name|
  {
    var b := BaseLength(name);
    if b < |name| && name[b] == DOT then b + 1 else b
  }

  function Extension(name: seq<byte>): seq<byte> {
    var e := ExtensionStart(name);
    name[e..Min(|name|, e + 3)]
  }

  /** The directory field of a non-empty name. */
  function Format(name: seq<byte>): (f: seq<byte>)
    ensures |f| == 11
  {
    Pad(UpperAll(name[..BaseLength(name)]), 8) + Pad(UpperAll(Extension(name)), 3)
  }

  function BasePart(f: seq<byte>): seq<byte>
    requires |f| == 11
  {
    f[..8][..Index(f[..8], SPACE)]
  }

  function ExtPart(f: seq<byte>): seq<byte>
    requires |f| == 11
  {
    f[8..][..Index(f[8..], SPACE)]
  }

  /** The name shown for a directory field; a NUL byte inside the field ends it early. */
  function Render(f: seq<byte>): (r: seq<byte>)
    requires |f| == 11
    ensures |r| <= 12 && IsCString(r)
  {
    CString(BasePart(f) + if f[8] != SPACE then [DOT] + ExtPart(f) else [])
  }

  // ---------------------------------------------------------------- formatting undoes rendering

  predicate TrailingSpacesOnly(s: seq<byte>) {
    forall i, j :: 0 <= i < j < |s| && s[i] == SPACE ==> s[j] == SPACE
  }

  /** The fields that survive a round trip: upper case, no NUL, spaces only trailing in each part,
      no dot in the base, not blank. */
  predicate CanonicalField(f: seq<byte>) {
    && |f| == 11
    && (forall i :: 0 <= i < 11 ==> f[i] != 0 && !(97 <= f[i] <= 122))
    && TrailingSpacesOnly(f[..8]) && TrailingSpacesOnly(f[8..])
    && (forall i :: 0 <= i < 8 ==> f[i] != DOT)
    && (f[0] != SPACE || f[8] != SPACE)
  }

  lemma {:induction false} PadOfPrefix(s: seq<byte>)
    requires TrailingSpacesOnly(s)
    ensures Pad(s[..Index(s, SPACE)], |s|) == s
  {
  }

  lemma {:induction false} UpperAllIdentity(s: seq<byte>)
    requires forall i :: 0 <= i < |s| ==> !(97 <= s[i] <= 122)
    ensures UpperAll(s) == s
  {
  }

  /** A base without a dot and a non-empty extension, put together and taken apart again. */
  lemma {:induction false} NameOfParts(b: seq<byte>, e: seq<byte>)
    requires |b| <= 8 && |e| <= 3 && DOT !in b
    ensures var raw := b + if e != [] then [DOT] + e else [];
      BaseLength(raw) == |b| && raw[..|b|] == b && Extension(raw) == e
  {
    var raw := b + if e != [] then [DOT] + e else [];
    IndexUnique(raw, DOT, |b|);
    assert raw[..|b|] == b;
    if e != [] {
      assert raw[|b|] == DOT;
      assert raw[|b| + 1..] == e;
    }
  }

  /** The parts of a canonical field. */
  lemma {:induction false} CanonicalParts(f: seq<byte>)
    requires CanonicalField(f)
    ensures var b, e := BasePart(f), ExtPart(f);
      && |b| <= 8 && |e| <= 3 && DOT !in b && 0 !in b && 0 !in e && (e == [] <==> f[8] == SPACE) && (b != [] || e != [])
      && UpperAll(b) == b && UpperAll(e) == e && Pad(b, 8) + Pad(e, 3) == f
  {
    var b, e := BasePart(f), ExtPart(f);
    assert forall i :: 0 <= i < |b| ==> b[i] == f[i];
    assert forall i :: 0 <= i < |e| ==> e[i] == f[8 + i];
    PadOfPrefix(f[..8]);
    PadOfPrefix(f[8..]);
    UpperAllIdentity(b);
    UpperAllIdentity(e);
    hide Pad, UpperAll, TrailingSpacesOnly;
    assert f[..8] + f[8..] == f;
  }

  lemma {:induction false} FormatOfRender(f: seq<byte>)
    requires CanonicalField(f)
    ensures Render(f) != [] && Format(Render(f)) == f
  {
    CanonicalParts(f);
    hide CanonicalField, BasePart, ExtPart, Pad, UpperAll, BaseLength, Extension;
    var b, e := BasePart(f), ExtPart(f);
    var raw := b + if f[8] != SPACE then [DOT] + e else [];
    assert 0 !in raw;
    CStringIdentity(raw);
    NameOfParts(b, e);
  }


  /** What formatting produces from a name without spaces. */
  lemma {:induction false} FormatShape(name: seq<byte>)
    requires IsCString(name) && SPACE !in name
    ensures Format(name)[0] != SPACE || Format(name)[8] != SPACE ==> CanonicalField(Format(name))
  {
    var f := Format(name);
    var b, x := UpperAll(name[..BaseLength(name)]), UpperAll(Extension(name));
    FormatLetters(name);
    hide UpperAll, BaseLength, Extension;
    assert f[..8] == Pad(b, 8) && f[8..] == Pad(x, 3);
  }

  /** No blank, NUL or small letter in the parts of a formatted name, and no dot in its base. */
  lemma {:induction false} FormatLetters(name: seq<byte>)
    requires IsCString(name) && SPACE !in name
    ensures var b, x := UpperAll(name[..BaseLength(name)]), UpperAll(Extension(name));
      && (forall i :: 0 <= i < |b| ==> b[i] != SPACE && b[i] != 0 && b[i] != DOT && !(97 <= b[i] <= 122))
      && (forall i :: 0 <= i < |x| ==> x[i] != SPACE && x[i] != 0 && !(97 <= x[i] <= 122))
  {
    var b, x := UpperAll(name[..BaseLength(name)]), UpperAll(Extension(name));
    assert forall i :: 0 <= i < |b| ==> name[i] in name && name[..Index(name, DOT)][i] == name[i];
    assert forall i :: 0 <= i < |x| ==> Extension(name)[i] in name;
  }

  lemma {:induction false} RenderHasNoSpace(f: seq<byte>)
    requires |f| == 11
    ensures SPACE !in Render(f)
  {
  }

  /** Formatting a rendered field gives the field back exactly for the canonical fields. */
  lemma {:induction false} FormatRenderRoundTrip(f: seq<byte>)
    requires |f| == 11
    ensures Render(f) != [] && Format(Render(f)) == f <==> CanonicalField(f)
  {
    if CanonicalField(f) {
      FormatOfRender(f);
    } else {
      RenderHasNoSpace(f);
      FormatShape(Render(f));
      assert f[0] == SPACE ==> Index(f[..8], SPACE) == 0;
    }
  }

  // ---------------------------------------------------------------- rendering a formatted name

  /** The names that are shown as they were given, up to case. */
  predicate ValidName(name: seq<byte>) {
    && SPACE !in name
    && var p := Index(name, DOT);
       p <= 8 && (p == |name| || 1 <= |name| - p - 1 <= 3)
  }

  lemma {:induction false} RenderParts(b: seq<byte>, x: seq<byte>, f: seq<byte>)
    requires |b| <= 8 && |x| <= 3 && f == Pad(b, 8) + Pad(x, 3)
    requires forall i :: 0 <= i < |x| ==> x[i] != SPACE
    requires forall i :: 0 <= i < |b| ==> b[i] != SPACE
    ensures BasePart(f) == b && ExtPart(f) == x && (f[8] == SPACE <==> x == [])
  {
    assert f[..8] == Pad(b, 8) && f[8..] == Pad(x, 3);
    IndexUnique(f[..8], SPACE, |b|);
    IndexUnique(f[8..], SPACE, |x|);
  }

  lemma {:induction false} UpperSplit(name: seq<byte>, p: nat)
    requires p < |name| && name[p] == DOT
    ensures UpperAll(name) == UpperAll(name[..p]) + ([DOT] + UpperAll(name[p + 1..]))
  {
  }

  lemma {:induction false} RenderOfFormat(name: seq<byte>)
    requires IsCString(name) && ValidName(name)
    ensures Render(Format(name)) == UpperAll(name)
  {
    var p := Index(name, DOT);
    ValidParts(name);
    hide ValidName, Index, BaseLength, Extension, Upper, ExtensionStart;
    var b, x := UpperAll(name[..p]), UpperAll(Extension(name));
    RenderParts(b, x, Format(name));
    assert x == [] ==> b + [] == b;
    CStringIdentity(UpperAll(name));
  }

  /** The parts of a valid name. */
  lemma {:induction false} ValidParts(name: seq<byte>)
    requires IsCString(name) && ValidName(name)
    ensures var p, ext := Index(name, DOT), Extension(name);
      && p <= |name| && p <= 8 && BaseLength(name) == p && |ext| <= 3 && IsCString(UpperAll(name))
      && UpperAll(name) == UpperAll(name[..p]) + (if ext != [] then [DOT] + UpperAll(ext) else [])
      && (forall i :: 0 <= i < p ==> UpperAll(name[..p])[i] != SPACE)
      && (forall i :: 0 <= i < |ext| ==> UpperAll(ext)[i] != SPACE)
  {
    var p, ext := Index(name, DOT), Extension(name);
    assert forall i :: 0 <= i < |name| ==> name[i] in name;
    if p < |name| {
      assert ext == name[p + 1..];
      UpperSplit(name, p);
    } else {
      assert name[..p] == name && ext == [];
      assert UpperAll(name) + [] == UpperAll(name);
    }
  }

  lemma {:induction false} RenderIsValid(f: seq<byte>)
    requires |f| == 11 && 0 !in f && DOT !in f[..8]
    ensures ValidName(Render(f))
  {
    RenderHasNoSpace(f);
    var b, x := BasePart(f), ExtPart(f);
    var raw := b + if f[8] != SPACE then [DOT] + x else [];
    assert forall i :: 0 <= i < |b| ==> b[i] == f[..8][i];
    CStringIdentity(raw);
    IndexUnique(raw, DOT, |b|);
  }

  lemma {:induction false} RenderedFormatIsValid(name: seq<byte>)
    requires IsCString(name)
    ensures ValidName(Render(Format(name)))
  {
    var f := Format(name);
    var n := BaseLength(name);
    var b, x := UpperAll(name[..n]), UpperAll(Extension(name));
    assert f[..8] == Pad(b, 8) && f[8..] == Pad(x, 3);
    assert forall i :: 0 <= i < n ==> name[i] in name && name[..Index(name, DOT)][i] == name[i];
    assert forall i :: 0 <= i < |x| ==> Extension(name)[i] in name;
    assert f == f[..8] + f[8..];
    RenderIsValid(f);
  }

  lemma {:induction false} UpperKeepsValidity(name: seq<byte>)
    ensures ValidName(UpperAll(name)) <==> ValidName(name)
  {
    var u := UpperAll(name);
    var p := Index(u, DOT);
    assert forall i :: 0 <= i < p ==> u[..p][i] == u[i];
    IndexUnique(name, DOT, p);
    assert forall i :: 0 <= i < |name| ==> u[i] in u && name[i] in name;
  }

  /** A formatted name is shown as its upper-casing exactly when it is a valid 8.3 name. */
  lemma {:induction false} RenderFormatIsUpper(name: seq<byte>)
    requires IsCString(name)
    ensures Render(Format(name)) == UpperAll(name) <==> ValidName(name)
  {
    if ValidName(name) {
      RenderOfFormat(name);
    } else {
      RenderedFormatIsValid(name);
      UpperKeepsValidity(name);
    }
  }

  // ---------------------------------------------------------------- the formatting loops

  lemma {:induction false} PadStep(s: seq<byte>, i: nat, n: nat, front: seq<byte>)
    requires i < |s| && i < n
    ensures (front + Pad(UpperAll(s[..i]), n))[|front| + i := Upper(s[i])] == front + Pad(UpperAll(s[..i + 1]), n)
  {
  }

  lemma {:induction false} PadSplit(s: seq<byte>)
    requires |s| <= 8
    ensures Pad(s, 11) == Pad(s, 8) + Pad(UpperAll([]), 3)
  {
  }

  lemma {:induction false} PadStart(s: seq<byte>, n: nat)
    ensures Pad(UpperAll(s[..0]), n) == seq(n, _ => SPACE)
  {
  }

  lemma {:induction false} BaseLengthIs(name: seq<byte>, i: nat)
    requires i <= |name| && i <= 8 && (forall k :: 0 <= k < i ==> name[k] != DOT) && (i == |name| || name[i] == DOT || i == 8)
    ensures i == BaseLength(name)
  {
    if i == |name| || name[i] == DOT {
      IndexUnique(name, DOT, i);
    } else {
      assert Index(name, DOT) < |name| ==> name[Index(name, DOT)] == DOT;
    }
  }

  lemma {:induction false} ExtensionIs(name: seq<byte>, e: nat, k: nat)
    requires e == ExtensionStart(name) && e + k <= |name| && k <= 3 && (e + k == |name| || k == 3)
    ensures name[e..][..k] == Extension(name)
  {
    var x, y := name[e..][..k], name[e..e + k];
    assert forall i :: 0 <= i < k ==> x[i] == name[e + i] == y[i];
  }

  /** `fat_format_name`: fails on the empty string, otherwise fills the 11-byte field. */
  method FormatName(name: seq<byte>) returns (ok: bool, out: seq<byte>)
    requires IsCString(name)
    ensures ok <==> name != []
    ensures ok ==> out == Format(name)
  {
    hide Pad, UpperAll, Upper;
    PadStart(name, 11);
    out := seq(11, _ => SPACE);
    if name == [] {
      return false, out;
    }
    var i := 0;
    while i < |name| && name[i] != DOT && i < 8
      invariant i <= |name| && i <= 8
      invariant forall k :: 0 <= k < i ==> name[k] != DOT
      invariant out == Pad(UpperAll(name[..i]), 11)
    {
      PadStep(name, i, 11, []);
      assert [] + out == out && [] + Pad(UpperAll(name[..i + 1]), 11) == Pad(UpperAll(name[..i + 1]), 11);
      out := out[i := Upper(name[i])];
      i := i + 1;
    }
    BaseLengthIs(name, i);
    ghost var b := UpperAll(name[..i]);
    if i < |name| && name[i] == DOT {
      i := i + 1;
    }
    var k := 0;
    ghost var e, rest := i, name[i..];
    PadSplit(b);
    assert rest[..0] == [];
    while i < |name| && k < 3
      invariant k <= 3 && i == e + k && i <= |name|
      invariant out == Pad(b, 8) + Pad(UpperAll(rest[..k]), 3)
    {
      PadStep(rest, k, 3, Pad(b, 8));
      out := out[8 + k := Upper(name[i])];
      i := i + 1;
      k := k + 1;
    }
    ExtensionIs(name, e, k);
    return true, out;
  }
}
