/** 8.3 file names: the conversion to the padded eleven-byte form (`to_dos_filename`) and the
    formatting of that form for a listing, with the exact conditions under which each undoes the other. */
module DosNames {
  import opened Bits

  const SPACE: byte := 0x20
  const DOT: byte := 0x2E

  /** The bytes before the terminating NUL of a C string. */
  type CString = s: seq<byte> | 0 !in s

  /** The filename and extension fields of a directory entry, taken together. */
  type DosName = s: seq<byte> | |s| == 11 witness seq(11, _ => SPACE)

  predicate IsLower(c: byte) { 0x61 <= c <= 0x7A }

  function Upper(c: byte): byte { if IsLower(c) then c - 32 else c }

  function UpperAll(s: seq<byte>): (r: seq<byte>)
    ensures |r| == |s| && forall i | 0 <= i < |s| :: r[i] == Upper(s[i])
  {
    seq(|s|, i requires 0 <= i < |s| => Upper(s[i]))
  }

  /** Index of the first occurrence of c at or after position i, or |s|. */
  function IndexFrom(s: seq<byte>, c: byte, i: nat): (r: nat)
    requires i <= |s|
    ensures i <= r <= |s|
    ensures forall k | i <= k < r :: s[k] != c
    ensures r < |s| ==> s[r] == c
    decreases |s| - i
  {
    if i == |s| || s[i] == c then i else IndexFrom(s, c, i + 1)
  }

  function IndexOf(s: seq<byte>, c: byte): nat { IndexFrom(s, c, 0) }

  function Padded(s: seq<byte>, n: nat): (r: seq<byte>)
    ensures |r| == n
    ensures forall i | 0 <= i < n :: r[i] == if i < |s| then s[i] else SPACE
  {
    if |s| <= n then s + seq(n - |s|, _ => SPACE) else s[..n]
  }

  /** The part of a file name before its first dot, and the part after it. */
  function Base(s: seq<byte>): seq<byte> { s[..IndexOf(s, DOT)] }

  function Extension(s: seq<byte>): seq<byte> {
    var d := IndexOf(s, DOT);
    if d < |s| then s[d + 1..] else []
  }

  /** Eight bytes of upper-cased base and three of upper-cased extension, blank-padded or cut. */
  function ToDos(s: seq<byte>): DosName {
    Padded(UpperAll(Base(s)), 8) + Padded(UpperAll(Extension(s)), 3)
  }

  /** The leading bytes of a field, up to its first blank. */
  function Field(s: seq<byte>): (r: seq<byte>)
    ensures |r| <= |s| && forall k | 0 <= k < |r| :: r[k] == s[k] != SPACE
  {
    s[..IndexOf(s, SPACE)]
  }

  /** How a listing shows a directory entry's name. */
  function Shown(n: DosName): seq<byte> {
    Field(n[..8]) + (if n[8] != SPACE then [DOT] + Field(n[8..]) else [])
  }

  /** C sees the shown name only up to its first NUL byte. */
  function ShownString(n: DosName): CString { Shown(n)[..IndexOf(Shown(n), 0)] }

  predicate BlankFrom(s: seq<byte>, i: nat) { forall k | i <= k < |s| :: s[k] == SPACE }

  predicate CleanField(s: seq<byte>) {
    && BlankFrom(s, IndexOf(s, SPACE))
    && forall k | 0 <= k < |s| :: s[k] != 0 && !IsLower(s[k])
  }

  /** A name in the form `to_dos_filename` produces. */
  predicate Normalised(n: DosName) {
    && CleanField(n[..8]) && CleanField(n[8..])
    && DOT !in n[..8]
  }

  /** A name that fits 8.3 without cutting or blanks. */
  predicate Fits(s: CString) {
    var d := IndexOf(s, DOT);
    && d <= 8
    && SPACE !in s
    && (d < |s| ==> 1 <= |s| - d - 1 <= 3)
  }

  lemma IndexOfAt(s: seq<byte>, c: byte, r: nat)
    requires r <= |s|
    requires forall k | 0 <= k < r :: s[k] != c
    requires r < |s| ==> s[r] == c
    ensures IndexOf(s, c) == r
  {
  }

  lemma PartsAt(s: seq<byte>, d: nat)
    requires d == IndexOf(s, DOT)
    ensures Base(s) == s[..d] && Extension(s) == if d < |s| then s[d + 1..] else []
  {
  }

  /** Where the dot of a shown name stands. */
  lemma ShownDot(n: DosName)
    requires DOT !in Field(n[..8])
    ensures IndexOf(Shown(n), DOT) == |Field(n[..8])|
    ensures Base(Shown(n)) == Field(n[..8])
    ensures Extension(Shown(n)) == if n[8] != SPACE then Field(n[8..]) else []
  {
    hide IndexFrom, Field;
    var b := Field(n[..8]);
    var s := Shown(n);
    forall k | 0 <= k < |b| ensures s[k] != DOT {
      assert s[k] == b[k] && b[k] in b;
    }
    IndexOfAt(s, DOT, |b|);
  }

  lemma PaddedField(s: seq<byte>)
    requires CleanField(s)
    ensures Padded(UpperAll(Field(s)), |s|) == s
  {
    hide IndexFrom;
  }

  /** A shown name contains a NUL only if the name does. */
  lemma ShownHasNoNul(n: DosName)
    requires forall k | 0 <= k < 11 :: n[k] != 0
    ensures 0 !in Shown(n) && ShownString(n) == Shown(n)
  {
    hide Field;
    var b, x := Field(n[..8]), Field(n[8..]);
    forall k | 0 <= k < |x| ensures x[k] != 0 { assert n[8..][k] == n[8 + k]; }
  }

  lemma FieldHasNoDot(s: seq<byte>)
    requires DOT !in s
    ensures DOT !in Field(s)
  {
  }

  lemma NormalisedRoundTrip(n: DosName)
    requires Normalised(n)
    ensures ToDos(ShownString(n)) == n
  {
    hide IndexFrom, Upper, UpperAll, Shown, ToDos, Field, Base, Extension, BlankFrom;
    forall k | 0 <= k < 11 ensures n[k] != 0 {
      assert n[k] == if k < 8 then n[..8][k] else n[8..][k - 8];
    }
    ShownHasNoNul(n);
    FieldHasNoDot(n[..8]);
    ShownDot(n);
    PaddedField(n[..8]);
    PaddedField(n[8..]);
    ToDosParts(Shown(n));
    if n[8] == SPACE {
      BlankField(n[8..]);
    }
    assert n == n[..8] + n[8..];
    assert ToDos(Shown(n)) == ToDos(Shown(n))[..8] + ToDos(Shown(n))[8..];
  }

  lemma BlankField(f: seq<byte>)
    requires |f| > 0 && f[0] == SPACE && CleanField(f)
    ensures Padded(UpperAll([]), |f|) == f
  {
  }

  lemma ToDosParts(s: seq<byte>)
    ensures ToDos(s)[..8] == Padded(UpperAll(Base(s)), 8)
    ensures ToDos(s)[8..] == Padded(UpperAll(Extension(s)), 3)
  {
  }

  /** A converted name holds no NUL and no lower-case letter, and its base holds no dot. */
  lemma ToDosIsClean(s: CString)
    ensures forall k | 0 <= k < 11 :: ToDos(s)[k] != 0 && !IsLower(ToDos(s)[k])
    ensures DOT !in ToDos(s)[..8]
  {
    hide IndexFrom, UpperAll;
    var b, e := UpperAll(Base(s)), UpperAll(Extension(s));
    forall k | 0 <= k < |b| ensures b[k] != 0 && b[k] != DOT { assert s[k] in s && b[k] == Upper(s[k]); }
    var d := IndexOf(s, DOT);
    forall k | 0 <= k < |e| ensures e[k] != 0 { assert s[d + 1 + k] in s && e[k] == Upper(s[d + 1 + k]); }
  }

  /** The letter in upper case, any other byte as it is. */
  function Capital(c: byte): byte { if 'a' as int <= c <= 'z' as int then c - 32 else c }

  /** The converted name byte by byte, d being where the first dot is, or the end: up to eight bytes before it and up to
      three behind it, small letters as capitals, blanks in what is left over. */
  lemma ToDosBytes(s: CString, d: nat)
    requires d <= |s| && (d < |s| ==> s[d] == '.' as int) && forall i | 0 <= i < d :: s[i] != '.' as int
    ensures forall i | 0 <= i < 8 :: ToDos(s)[i] == if i < d then Capital(s[i]) else ' ' as int
    ensures forall i | 8 <= i < 11 ::
              ToDos(s)[i] == if d + 1 + (i - 8) < |s| then Capital(s[d + 1 + (i - 8)]) else ' ' as int
  {
    IndexOfAt(s, DOT, d);
    PartsAt(s, d);
    hide IndexFrom, Base, Extension;
    ToDosParts(s);
    hide ToDos;
    assert forall i | 0 <= i < 8 :: ToDos(s)[i] == ToDos(s)[..8][i];
    assert forall i | 8 <= i < 11 :: ToDos(s)[i] == ToDos(s)[8..][i - 8];
  }

  /** Names without small letters are taken as they are. */
  lemma CapitalsStay(s: CString, d: nat)
    requires d <= |s| && (d < |s| ==> s[d] == '.' as int) && forall i | 0 <= i < d :: s[i] != '.' as int
    requires forall i | 0 <= i < |s| :: !('a' as int <= s[i] <= 'z' as int)
    ensures forall i | 0 <= i < 8 :: ToDos(s)[i] == if i < d then s[i] else ' ' as int
    ensures forall i | 8 <= i < 11 ::
              ToDos(s)[i] == if d + 1 + (i - 8) < |s| then s[d + 1 + (i - 8)] else ' ' as int
  {
    ToDosBytes(s, d);
    hide ToDos;
  }

  /** A small letter and the capital at the same place in the alphabet, either way round, or the same byte. */
  predicate SameLetter(a: byte, b: byte) {
    || a == b
    || ('a' as int <= a <= 'z' as int && b - 'A' as int == a - 'a' as int)
    || ('a' as int <= b <= 'z' as int && a - 'A' as int == b - 'a' as int)
  }

  predicate SameButCase(s: CString, t: CString) {
    |s| == |t| && forall i | 0 <= i < |s| :: SameLetter(s[i], t[i])
  }

  /** Names that differ only in the case of letters are the same name. */
  lemma CaseDoesNotMatter(s: CString, t: CString)
    requires SameButCase(s, t)
    ensures ToDos(s) == ToDos(t)
  {
    var d := IndexOf(s, DOT);
    forall i | 0 <= i < |s| ensures Capital(s[i]) == Capital(t[i]) && (s[i] == DOT <==> t[i] == DOT) {
      assert SameLetter(s[i], t[i]);
    }
    ToDosBytes(s, d);
    ToDosBytes(t, d);
    hide ToDos, IndexFrom, SameButCase, Capital, SameLetter;
    assert forall i | 0 <= i < 11 :: ToDos(s)[i] == ToDos(t)[i];
  }

  /** The shown name, b and e being the lengths of its two parts: the part before the first blank of each field, with a
      dot between them if there is an extension. */
  lemma ShownBytes(n: DosName, b: nat, e: nat)
    requires b <= 8 && (b < 8 ==> n[b] == ' ' as int) && forall i | 0 <= i < b :: n[i] != ' ' as int
    requires e <= 3 && (e < 3 ==> n[8 + e] == ' ' as int) && forall i | 8 <= i < 8 + e :: n[i] != ' ' as int
    ensures Shown(n) == n[..b] + (if e == 0 then [] else ['.' as int] + n[8..8 + e])
  {
    IndexOfAt(n[..8], SPACE, b);
    IndexOfAt(n[8..], SPACE, e);
    assert n[..8][..b] == n[..b] && n[8..][..e] == n[8..8 + e];
    hide IndexFrom;
  }

  /** Converting a listed name gives back the same eleven bytes for the normal forms and no others. */
  lemma ListedNameRoundTrip(n: DosName)
    ensures ToDos(ShownString(n)) == n <==> Normalised(n)
  {
    if Normalised(n) {
      NormalisedRoundTrip(n);
    }
    if ToDos(ShownString(n)) == n {
      RoundTripIsNormalised(n);
    }
  }

  lemma RoundTripIsNormalised(n: DosName)
    requires ToDos(ShownString(n)) == n
    ensures Normalised(n)
  {
    hide IndexFrom, Upper, UpperAll, Shown, ToDos, Field, Base, Extension, CleanField;
    ToDosIsClean(ShownString(n));
    ShownHasNoNul(n);
    FieldHasNoDot(n[..8]);
    ShownDot(n);
    ToDosParts(Shown(n));
    PaddedIsClean(n[..8], Field(n[..8]));
    PaddedIsClean(n[8..], if n[8] != SPACE then Field(n[8..]) else []);
  }

  lemma PaddedIsClean(f: seq<byte>, b: seq<byte>)
    requires |f| > 0 && f == Padded(UpperAll(b), |f|)
    requires b == Field(f) || (b == [] && f[0] == SPACE)
    requires forall k | 0 <= k < |f| :: f[k] != 0 && !IsLower(f[k])
    ensures CleanField(f)
  {
    hide IndexFrom, Upper;
  }

  /** Listing the converted form of a name shows its upper-case form for the names that fit, and no others. */
  lemma ConvertedNameRoundTrip(s: CString)
    ensures Shown(ToDos(s)) == UpperAll(s) <==> Fits(s)
    ensures Fits(s) ==>
              && |Shown(ToDos(s))| == |s|
              && forall i | 0 <= i < |s| ::
                   Shown(ToDos(s))[i] == if 'a' as int <= s[i] <= 'z' as int then s[i] - 32 else s[i]
  {
    if Fits(s) {
      FittingRoundTrip(s);
    }
    if Shown(ToDos(s)) == UpperAll(s) {
      RoundTripFits(s);
    }
  }

  lemma FieldOfPadded(s: seq<byte>, n: nat)
    requires |s| <= n && SPACE !in s
    ensures Field(Padded(s, n)) == s
  {
    hide IndexFrom;
    var p := Padded(s, n);
    forall k | 0 <= k < |s| ensures p[k] != SPACE { assert s[k] in s; }
    IndexOfAt(p, SPACE, |s|);
  }

  lemma UpperKeepsBlank(s: seq<byte>)
    ensures SPACE in UpperAll(s) <==> SPACE in s
  {
    var u := UpperAll(s);
    if SPACE in u { var k :| 0 <= k < |u| && u[k] == SPACE; assert s[k] == SPACE; }
    if SPACE in s { var k :| 0 <= k < |s| && s[k] == SPACE; assert u[k] == SPACE; }
  }

  lemma FittingRoundTrip(s: CString)
    requires Fits(s)
    ensures Shown(ToDos(s)) == UpperAll(s)
  {
    hide IndexFrom, UpperAll, ToDos, Field, Padded;
    var n, d := ToDos(s), IndexOf(s, DOT);
    var b, e := UpperAll(Base(s)), UpperAll(Extension(s));
    UpperKeepsBlank(Base(s));
    UpperKeepsBlank(Extension(s));
    ToDosParts(s);
    FieldOfPadded(b, 8);
    FieldOfPadded(e, 3);
    assert n[8] == n[8..][0];
    if d < |s| {
      assert e[0] in e;
      assert UpperAll(s) == b + [DOT] + e;
    } else {
      assert UpperAll(s) == b;
    }
  }

  lemma RoundTripFits(s: CString)
    requires Shown(ToDos(s)) == UpperAll(s)
    ensures Fits(s)
  {
    hide IndexFrom, UpperAll, ToDos, Field, Base, Extension;
    var n, u, d := ToDos(s), UpperAll(s), IndexOf(s, DOT);
    var b, x := Field(n[..8]), Field(n[8..]);
    ToDosIsClean(s);
    FieldHasNoDot(n[..8]);
    ShownDot(n);
    UpperKeepsDot(s, d);
    UpperKeepsBlank(s);
    assert |b| == d <= 8;
    assert n[8] == n[8..][0];
    if n[8] != SPACE {
      FieldNotEmpty(n[8..]);
    }
    assert u == b + (if n[8] != SPACE then [DOT] + x else []);
    assert SPACE !in u;
  }

  lemma FieldNotEmpty(f: seq<byte>)
    requires |f| > 0 && f[0] != SPACE
    ensures 0 < |Field(f)| <= |f|
  {
  }

  lemma UpperKeepsDot(s: seq<byte>, d: nat)
    requires d == IndexOf(s, DOT)
    ensures IndexOf(UpperAll(s), DOT) == d
  {
    hide IndexFrom;
    var u := UpperAll(s);
    forall k | 0 <= k < d ensures u[k] != DOT { assert s[k] != DOT; }
    IndexOfAt(u, DOT, d);
  }
}
