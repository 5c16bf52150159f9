/** Hostnames as bytes, and the normal form routing compares. Case and white space are those of ASCII. */
module Hostnames {
  import opened Wrappers
  import opened VarInt

  const DOT: Byte := 46

  predicate IsSpace(b: Byte) {
    b == 32 || 9 <= b <= 13
  }

  function Lower(b: Byte): Byte {
    if 65 <= b <= 90 then b + 32 else b
  }

  function ToLower(s: Bytes): Bytes {
    if s == [] then [] else [Lower(s[0])] + ToLower(s[1..])
  }

  function CutAtNul(s: Bytes): Bytes {
    if s == [] || s[0] == 0 then [] else [s[0]] + CutAtNul(s[1..])
  }

  function TrimLeft(s: Bytes): Bytes {
    if s != [] && IsSpace(s[0]) then TrimLeft(s[1..]) else s
  }

  function TrimRight(s: Bytes): Bytes {
    if s != [] && IsSpace(s[|s| - 1]) then TrimRight(s[..|s| - 1]) else s
  }

  function DropDot(s: Bytes): Bytes {
    if s != [] && s[|s| - 1] == DOT then s[..|s| - 1] else s
  }

  /** The name up to a NUL byte, without surrounding white space. */
  function Trimmed(host: Bytes): Bytes {
    TrimRight(TrimLeft(CutAtNul(host)))
  }

  function NormalizeHostname(host: Bytes): Bytes {
    ToLower(DropDot(Trimmed(host)))
  }

  /** A name that normalising again would still shorten. */
  predicate Shrinks(s: Bytes) {
    s != [] && (s[|s| - 1] == DOT || IsSpace(s[|s| - 1]))
  }

  lemma {:induction false} ToLowerAt(s: Bytes)
    ensures |ToLower(s)| == |s| && forall i :: 0 <= i < |s| ==> ToLower(s)[i] == Lower(s[i])
  {
    if s != [] {
      ToLowerAt(s[1..]);
    }
  }

  lemma {:induction false} CutHasNoNul(s: Bytes)
    ensures forall i :: 0 <= i < |CutAtNul(s)| ==> CutAtNul(s)[i] != 0
  {
    if s != [] && s[0] != 0 {
      CutHasNoNul(s[1..]);
    }
  }

  lemma {:induction false} CutNothing(s: Bytes)
    requires forall i :: 0 <= i < |s| ==> s[i] != 0
    ensures CutAtNul(s) == s
  {
    if s != [] {
      CutNothing(s[1..]);
    }
  }

  lemma {:induction false} TrimLeftIsSuffix(s: Bytes)
    ensures |TrimLeft(s)| <= |s| && TrimLeft(s) == s[|s| - |TrimLeft(s)|..]
    ensures TrimLeft(s) != [] ==> !IsSpace(TrimLeft(s)[0])
  {
    if s != [] && IsSpace(s[0]) {
      TrimLeftIsSuffix(s[1..]);
    }
  }

  lemma {:induction false} TrimRightIsPrefix(s: Bytes)
    ensures |TrimRight(s)| <= |s| && TrimRight(s) == s[..|TrimRight(s)|]
    ensures TrimRight(s) != [] ==> !IsSpace(TrimRight(s)[|TrimRight(s)| - 1])
  {
    if s != [] && IsSpace(s[|s| - 1]) {
      TrimRightIsPrefix(s[..|s| - 1]);
    }
  }

  /** The trimmed name has no NUL byte and no white space at either end. */
  lemma TrimmedShape(host: Bytes)
    ensures Trimmed(host) != [] ==> !IsSpace(Trimmed(host)[0]) && !IsSpace(Trimmed(host)[|Trimmed(host)| - 1])
    ensures forall i :: 0 <= i < |Trimmed(host)| ==> Trimmed(host)[i] != 0
  {
    var cut := CutAtNul(host);
    CutHasNoNul(host);
    TrimLeftIsSuffix(cut);
    TrimRightIsPrefix(TrimLeft(cut));
  }

  lemma ToLowerKeepsShape(s: Bytes)
    ensures |ToLower(s)| == |s| && ToLower(ToLower(s)) == ToLower(s)
    ensures s != [] ==> (IsSpace(ToLower(s)[0]) <==> IsSpace(s[0]))
    ensures Shrinks(ToLower(s)) <==> Shrinks(s)
    ensures (forall i :: 0 <= i < |s| ==> s[i] != 0) ==> CutAtNul(ToLower(s)) == ToLower(s)
  {
    ToLowerAt(s);
    ToLowerAt(ToLower(s));
    if forall i :: 0 <= i < |s| ==> s[i] != 0 {
      CutNothing(ToLower(s));
    }
  }

  /** Normalising a lower-case name without NUL or leading white space changes it exactly when it ends in a dot or
      white space. */
  lemma ChangesIffShrinks(n: Bytes)
    requires CutAtNul(n) == n && TrimLeft(n) == n && ToLower(n) == n
    ensures NormalizeHostname(n) == n <==> !Shrinks(n)
  {
    TrimRightIsPrefix(n);
    var t := TrimRight(n);
    assert Trimmed(n) == t;
    ToLowerAt(DropDot(t));
    if Shrinks(n) {
      if IsSpace(n[|n| - 1]) {
        TrimRightIsPrefix(n[..|n| - 1]);
      }
      assert |DropDot(t)| < |n|;
    }
  }

  predicate Ascii(s: Bytes) { forall i :: 0 <= i < |s| ==> s[i] < 128 }

  /** Normalising is idempotent on an ASCII name exactly when the trimmed name does not end in a dot that follows another dot
      or a white-space character: only one trailing dot is dropped, and no space is trimmed after it. */
  lemma IdempotentIff(host: Bytes)
    requires Ascii(host)
    ensures NormalizeHostname(NormalizeHostname(host)) == NormalizeHostname(host)
       <==> !(EndsInDot(Trimmed(host)) && Shrinks(DropDot(Trimmed(host))))
  {
    TrimmedShape(host);
    var u := DropDot(Trimmed(host));
    ToLowerKeepsShape(u);
    ChangesIffShrinks(ToLower(u));
  }

  /** "a.." normalises to "a." and that to "a". */
  lemma TwoDots()
    ensures NormalizeHostname([97, DOT, DOT]) == [97, DOT] && NormalizeHostname([97, DOT]) == [97]
  {
    TrimmedPlain([97, DOT, DOT]);
    TrimmedPlain([97, DOT]);
    assert [97, DOT, DOT][..2] == [97, DOT] && [97, DOT][..1] == [97];
    ToLowerAt([97, DOT]);
    ToLowerAt([97]);
  }

  lemma TrimmedPlain(s: Bytes)
    requires s != [] && !IsSpace(s[0]) && !IsSpace(s[|s| - 1]) && forall i :: 0 <= i < |s| ==> s[i] != 0
    ensures Trimmed(s) == s
  {
    CutNothing(s);
  }

  predicate EndsInDot(s: Bytes) {
    s != [] && s[|s| - 1] == DOT
  }

  predicate Blank(s: Bytes) { forall i :: 0 <= i < |s| ==> IsSpace(s[i]) }

  /** A name with white space on both sides, perhaps a dot behind it, and perhaps a NUL byte with anything after it. */
  function Decorated(left: Bytes, name: Bytes, dot: bool, right: Bytes, suffix: Option<Bytes>): Bytes {
    (left + (name + (if dot then [DOT] else []) + right)) + if suffix.Some? then [0] + suffix.value else []
  }

  lemma {:induction false} TrimLeftBlank(left: Bytes, s: Bytes)
    requires Blank(left) && (s != [] ==> !IsSpace(s[0]))
    ensures TrimLeft(left + s) == s
  {
    if left == [] {
      assert left + s == s;
    } else {
      assert (left + s)[1..] == left[1..] + s;
      TrimLeftBlank(left[1..], s);
    }
  }

  lemma {:induction false} TrimRightBlank(s: Bytes, right: Bytes)
    requires Blank(right) && (s != [] ==> !IsSpace(s[|s| - 1]))
    ensures TrimRight(s + right) == s
  {
    if right == [] {
      assert s + right == s;
    } else {
      var n := |right| - 1;
      assert (s + right)[..|s + right| - 1] == s + right[..n];
      TrimRightBlank(s, right[..n]);
    }
  }

  /** A blank string in front of a name that may be empty, and a blank string behind it. */
  lemma TrimBlanks(left: Bytes, s: Bytes, right: Bytes)
    requires Blank(left) && Blank(right) && (s != [] ==> !IsSpace(s[0]) && !IsSpace(s[|s| - 1]))
    ensures TrimRight(TrimLeft(left + (s + right))) == s
  {
    if s == [] {
      assert left + ([] + right) == (left + right) + [];
      TrimLeftBlank(left + right, []);
    } else {
      TrimLeftBlank(left, s + right);
      TrimRightBlank(s, right);
    }
  }

  lemma CutDecoration(front: Bytes, suffix: Option<Bytes>)
    requires forall i :: 0 <= i < |front| ==> front[i] != 0
    ensures CutAtNul(front + if suffix.Some? then [0] + suffix.value else []) == front
  {
    if suffix.Some? {
      CutBefore(front, suffix.value);
    } else {
      assert front + [] == front;
      CutNothing(front);
    }
  }

  /** Case, surrounding white space, one trailing dot and anything from a NUL byte on make no difference. */
  lemma IgnoresDecoration(host: Bytes, left: Bytes, name: Bytes, dot: bool, right: Bytes, suffix: Option<Bytes>)
    requires Ascii(host) && ToLower(name) == ToLower(host)
    requires forall i :: 0 <= i < |name| ==> name[i] != 0
    requires name != [] ==> !IsSpace(name[0]) && !IsSpace(name[|name| - 1])
    requires !dot ==> !EndsInDot(name)
    requires Blank(left) && Blank(right)
    ensures NormalizeHostname(Decorated(left, name, dot, right, suffix)) == ToLower(host)
  {
    var dotted := name + if dot then [DOT] else [];
    CutDecoration(left + (dotted + right), suffix);
    TrimBlanks(left, dotted, right);
    assert DropDot(dotted) == name;
  }

  lemma {:induction false} CutBefore(front: Bytes, suffix: Bytes)
    requires forall i :: 0 <= i < |front| ==> front[i] != 0
    ensures CutAtNul(front + ([0] + suffix)) == front
  {
    if front != [] {
      CutBefore(front[1..], suffix);
      assert (front + ([0] + suffix))[1..] == front[1..] + ([0] + suffix);
    }
  }

  // ---- byte for byte ----

  lemma SpaceAndDot(b: Byte)
    ensures IsSpace(b) <==> b == 32 || b == 9 || b == 10 || b == 11 || b == 12 || b == 13
    ensures DOT == 46
  {
  }

  /** A name with nothing to trim: no zero byte, no white space at either end, no dot at the end. */
  predicate Plain(s: Bytes) {
    && (forall i :: 0 <= i < |s| ==> s[i] != 0)
    && (s != [] ==> !IsSpace(s[0]) && !IsSpace(s[|s| - 1]) && s[|s| - 1] != 46)
  }

  /** No capital letter is left. */
  lemma NoCapitals(host: Bytes, i: nat)
    requires i < |NormalizeHostname(host)|
    ensures !(65 <= NormalizeHostname(host)[i] <= 90)
  {
    ToLowerAt(DropDot(Trimmed(host)));
  }

  /** A plain name keeps its length, its capital letters become small ones, and every other byte stays. */
  lemma PlainIsFolded(host: Bytes)
    requires Plain(host)
    ensures |NormalizeHostname(host)| == |host|
    ensures forall i :: 0 <= i < |host| ==>
              NormalizeHostname(host)[i] == if 65 <= host[i] <= 90 then host[i] + 32 else host[i]
  {
    if host != [] {
      TrimmedPlain(host);
    }
    ToLowerAt(host);
  }

  predicate SameLetter(a: Byte, b: Byte) {
    a == b || (65 <= a <= 90 && b == a + 32) || (65 <= b <= 90 && a == b + 32)
  }

  /** Two plain names are the same name exactly when they agree letter by letter up to case. */
  lemma PlainNamesAgreeIff(a: Bytes, b: Bytes)
    requires Plain(a) && Plain(b)
    ensures NormalizeHostname(a) == NormalizeHostname(b)
       <==> |a| == |b| && forall i :: 0 <= i < |a| ==> SameLetter(a[i], b[i])
  {
    PlainIsFolded(a);
    PlainIsFolded(b);
    if NormalizeHostname(a) == NormalizeHostname(b) {
      forall i | 0 <= i < |a| ensures SameLetter(a[i], b[i]) {
        assert NormalizeHostname(a)[i] == NormalizeHostname(b)[i];
      }
    }
  }
}
