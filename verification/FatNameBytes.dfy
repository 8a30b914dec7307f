/** Stored and shown names byte by byte: what formatting and rendering do to the characters of a name, said
    without the functions that do it. */
module FatNameBytes {
  import opened Bytes
  import opened FatNames

  /** Letter `k` of the alphabet, small and capital. */
  predicate Letters(small: byte, capital: byte, k: nat) {
    k < 26 && small == 'a' as int + k && capital == 'A' as int + k
  }

  /** `u` is stored for `c`: a small letter becomes the capital with the same place in the alphabet, and
      every other byte stays as it is. */
  predicate StoredAs(c: byte, u: byte) {
    if 'a' as int <= c <= 'z' as int then Letters(c, u, c - 'a' as int) else u == c
  }

  /** The same byte, or the same letter in both cases. */
  ghost predicate SameLetter(x: byte, y: byte) {
    x == y || exists k :: Letters(x, y, k) || Letters(y, x, k)
  }

  lemma {:induction false} UpperStores(c: byte)
    ensures StoredAs(c, Upper(c))
    ensures forall u, k :: Letters(c, u, k) ==> Upper(c) == u
  {
  }

  lemma {:induction false} StoredOnce(c: byte, u: byte)
    ensures StoredAs(c, u) <==> u == Upper(c)
  {
  }

  /** Two bytes are stored alike exactly when they are the same up to case. */
  lemma {:induction false} StoredAlike(x: byte, y: byte)
    ensures Upper(x) == Upper(y) <==> SameLetter(x, y)
  {
    if Upper(x) == Upper(y) && x != y {
      if 'a' as int <= x <= 'z' as int {
        assert Letters(x, y, x - 'a' as int);
      } else {
        assert Letters(y, x, y - 'a' as int);
      }
    }
  }

  // ---------------------------------------------------------------- the stored name

  /** The first dot is at `p`, or there is none and `p` is the length. */
  predicate FirstDot(name: seq<byte>, p: nat) {
    p <= |name| && (forall i :: 0 <= i < p ==> name[i] != '.' as int) && (p < |name| ==> name[p] == '.' as int)
  }

  /** The character of the name that goes to place `k` of the 11: eight before the first dot and three behind
      it. When the base is longer than eight characters, the extension is what comes next, and the dot is not
      looked for. Blanks fill up. */
  function Source(name: seq<byte>, p: nat, k: nat): byte
    requires p <= |name|
  {
    var i := if p > 8 || k < 8 then k else p + 1 + (k - 8);
    if i < |name| && (p > 8 || k >= 8 || k < p) then name[i] else ' ' as int
  }

  /** The stored name, byte by byte. */
  lemma {:induction false} FormatBytes(name: seq<byte>, p: nat)
    requires FirstDot(name, p)
    ensures forall k :: 0 <= k < 11 ==> StoredAs(Source(name, p, k), Format(name)[k])
  {
    IndexUnique(name, DOT, p);
    forall k | 0 <= k < 11
      ensures StoredAs(Source(name, p, k), Format(name)[k])
    {
      FormatByte(name, p, k);
      UpperStores(Source(name, p, k));
    }
  }

  lemma {:induction false} FormatByte(name: seq<byte>, p: nat, k: nat)
    requires FirstDot(name, p) && p == Index(name, DOT) && k < 11
    ensures Format(name)[k] == Upper(Source(name, p, k))
  {
    hide Upper, Index;
    var b, x := UpperAll(name[..BaseLength(name)]), UpperAll(Extension(name));
    assert Upper(SPACE) == SPACE;
    if k < 8 {
      assert Format(name)[k] == Pad(b, 8)[k];
    } else {
      assert Format(name)[k] == Pad(x, 3)[k - 8];
    }
  }

  /** Two names go to the same entry exactly when they agree up to case in each of the eleven places. */
  lemma {:induction false} SameEntry(a: seq<byte>, b: seq<byte>, p: nat, q: nat)
    requires FirstDot(a, p) && FirstDot(b, q)
    ensures Format(a) == Format(b) <==> forall k :: 0 <= k < 11 ==> SameLetter(Source(a, p, k), Source(b, q, k))
  {
    IndexUnique(a, DOT, p);
    IndexUnique(b, DOT, q);
    forall k | 0 <= k < 11
      ensures Format(a)[k] == Format(b)[k] <==> SameLetter(Source(a, p, k), Source(b, q, k))
    {
      FormatByte(a, p, k);
      FormatByte(b, q, k);
      StoredAlike(Source(a, p, k), Source(b, q, k));
    }
    hide Format, SameLetter, Source;
    if forall k :: 0 <= k < 11 ==> SameLetter(Source(a, p, k), Source(b, q, k)) {
      assert forall k :: 0 <= k < 11 ==> Format(a)[k] == Format(b)[k];
    }
  }

  // ---------------------------------------------------------------- the shown name

  /** `shown` is the name in capitals, letter by letter. */
  predicate Capitals(name: seq<byte>, shown: seq<byte>) {
    |shown| == |name| && forall i :: 0 <= i < |name| ==> StoredAs(name[i], shown[i])
  }

  lemma {:induction false} CapitalsAre(name: seq<byte>, shown: seq<byte>)
    ensures Capitals(name, shown) <==> shown == UpperAll(name)
  {
    forall i | 0 <= i < |name| && i < |shown|
      ensures StoredAs(name[i], shown[i]) <==> shown[i] == Upper(name[i])
    {
      StoredOnce(name[i], shown[i]);
    }
  }

  /** A stored name is shown in capitals exactly when the given name was a valid 8.3 name. */
  lemma {:induction false} ShownInCapitals(name: seq<byte>, shown: seq<byte>)
    requires IsCString(name) && Capitals(name, shown)
    ensures Render(Format(name)) == shown <==> ValidName(name)
  {
    CapitalsAre(name, shown);
    RenderFormatIsUpper(name);
  }

  /** The field up to its first blank, or all of it. */
  predicate UpToBlank(s: seq<byte>, n: nat) {
    n <= |s| && (forall i :: 0 <= i < n ==> s[i] != ' ' as int) && (n < |s| ==> s[n] == ' ' as int)
  }

  /** The shown name, byte by byte: base and extension up to their first blanks, with a dot between them when
      the extension field does not start with a blank. */
  lemma {:induction false} RenderBytes(f: seq<byte>, n: nat, x: nat)
    requires |f| == 11 && 0 !in f && UpToBlank(f[..8], n) && UpToBlank(f[8..], x)
    ensures Render(f) == f[..n] + if f[8] != ' ' as int then ['.' as int] + f[8..8 + x] else []
  {
    IndexUnique(f[..8], SPACE, n);
    IndexUnique(f[8..], SPACE, x);
    var raw := f[..n] + if f[8] != SPACE then [DOT] + f[8..8 + x] else [];
    assert f[..8][..n] == f[..n] && f[8..][..x] == f[8..8 + x];
    assert forall i :: 0 <= i < |raw| ==> raw[i] == DOT || raw[i] in f;
    CStringIdentity(raw);
  }
}
