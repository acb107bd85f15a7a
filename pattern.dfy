/**
  * `impl Pattern for char` (src/ch_11.rs): search a string slice for a
  * character and report where its first occurrence starts. The search is
  * `char_indices().find(..).map(..)`, so the position is a UTF-8 byte offset.
  */
module Pattern {
  import opened Options
  import opened Utf8

  /**
    * `str::char_indices`, started at byte offset `base`: every character of s,
    * in order, paired with the byte offset at which its encoding starts.
    */
  function CharIndicesFrom(s: seq<char>, base: nat): (r: seq<(nat, char)>)
    ensures |r| == |s|
    ensures forall i :: 0 <= i < |s| ==> r[i] == (base + ByteLen(s[..i]), s[i])
    decreases |s|
  {
    if s == [] then []
    else
      ByteLenPrefixesOfTail(s);
      [(base, s[0])] + CharIndicesFrom(s[1..], base + Width(s[0]))
  }

  /** `str::char_indices`: every character with the byte offset at which it starts. */
  function CharIndices(s: seq<char>): (r: seq<(nat, char)>)
    ensures |r| == |s|
    ensures forall i :: 0 <= i < |s| ==> r[i] == (ByteLen(s[..i]), s[i])
  {
    CharIndicesFrom(s, 0)
  }

  /** `Iterator::find`: the first element of xs that satisfies p, if any. */
  function Find<T>(xs: seq<T>, p: T -> bool): (r: Option<T>)
    ensures r.None? <==> forall i :: 0 <= i < |xs| ==> !p(xs[i])
    ensures r.Some? ==> r.value in xs && p(r.value)
  {
    if xs == [] then None
    else if p(xs[0]) then Some(xs[0])
    else Find(xs[1..], p)
  }

  /** Find stops at the first element that satisfies p. */
  lemma {:induction false} FindFirst<T>(xs: seq<T>, p: T -> bool, i: nat)
    requires i < |xs| && p(xs[i])
    requires forall j :: 0 <= j < i ==> !p(xs[j])
    ensures Find(xs, p) == Some(xs[i])
  {
    if i > 0 {
      assert !p(xs[0]);
      FindFirst(xs[1..], p, i - 1);
    }
  }

  /**
    * `<char as Pattern>::search`: the byte offset of the first character of s
    * equal to pat, or None. Being a function, it reads neither argument's
    * storage beyond its value and changes neither.
    */
  function Search(pat: char, s: seq<char>): (r: Option<nat>)
    ensures r.None? <==> pat !in s
    ensures r.Some? ==> exists i :: 0 <= i < |s| && s[i] == pat && r.value == ByteLen(s[..i])
  {
    Find(CharIndices(s), (ic: (nat, char)) => ic.1 == pat).Map((ic: (nat, char)) => ic.0)
  }

  /**
    * Character index of the first occurrence of c in s: the reference
    * definition the byte offset returned by Search is compared with.
    */
  function IndexOf(s: seq<char>, c: char): (r: Option<nat>)
    ensures r.None? <==> c !in s
    ensures r.Some? ==> r.value < |s| && s[r.value] == c
    ensures r.Some? ==> forall j :: 0 <= j < r.value ==> s[j] != c
  {
    if s == [] then None
    else if s[0] == c then Some(0)
    else
      match IndexOf(s[1..], c)
      case None => None
      case Some(i) => Some(i + 1)
  }

  /** The contract of IndexOf determines it: the first index holding c is the answer. */
  lemma IndexOfFirst(s: seq<char>, c: char, i: nat)
    requires i < |s| && s[i] == c
    requires forall j :: 0 <= j < i ==> s[j] != c
    ensures IndexOf(s, c) == Some(i)
  {
  }

  /** Search finds the first occurrence and reports the byte length of everything before it. */
  lemma SearchIsByteOffsetOfFirst(pat: char, s: seq<char>)
    ensures Search(pat, s) ==
      match IndexOf(s, pat)
      case None => None
      case Some(i) => Some(ByteLen(s[..i]))
  {
    var xs, hit := CharIndices(s), (ic: (nat, char)) => ic.1 == pat;
    match IndexOf(s, pat)
    case None =>
      assert forall i :: 0 <= i < |xs| ==> !hit(xs[i]);
    case Some(i) =>
      assert forall j :: 0 <= j < i ==> !hit(xs[j]);
      FindFirst(xs, hit, i);
  }

  lemma SearchEmpty(pat: char)
    ensures Search(pat, []) == None
  {
  }

  /** Search reports absence exactly when the character does not occur. */
  lemma SearchNoneIffAbsent(pat: char, s: seq<char>)
    ensures Search(pat, s) == None <==> pat !in s
  {
    SearchIsByteOffsetOfFirst(pat, s);
  }

  /**
    * A reported offset lies inside the string's bytes, and the character whose
    * encoding starts there is the pattern.
    */
  lemma SearchFindsPattern(pat: char, s: seq<char>, p: nat)
    requires Search(pat, s) == Some(p)
    ensures p < ByteLen(s) == |EncodeStr(s)|
    ensures DecodeAt(EncodeStr(s), p) == Some(pat)
  {
    SearchIsByteOffsetOfFirst(pat, s);
    var i := IndexOf(s, pat).value;
    DecodeAtBoundary(s, i);
    EncodedLength(s);
  }

  /** No character that starts at a smaller byte offset equals the pattern. */
  lemma SearchIsFirst(pat: char, s: seq<char>, p: nat, q: nat)
    requires Search(pat, s) == Some(p) && q < p
    ensures DecodeAt(EncodeStr(s), q) != Some(pat)
  {
    SearchIsByteOffsetOfFirst(pat, s);
    var i := IndexOf(s, pat).value;
    if DecodeAt(EncodeStr(s), q).Some? {
      DecodeBefore(s, i, q);
    }
  }

  /**
    * The offset is a byte count, not a character count: it is never below the
    * character index, and equals it exactly when every earlier character is ASCII.
    */
  lemma SearchOffsetVersusIndex(pat: char, s: seq<char>, i: nat)
    requires IndexOf(s, pat) == Some(i)
    ensures Search(pat, s).Some? && Search(pat, s).value >= i
    ensures Search(pat, s) == Some(i) <==> forall j :: 0 <= j < i ==> (s[j] as int) < 0x80
  {
    SearchIsByteOffsetOfFirst(pat, s);
    assert Search(pat, s) == Some(ByteLen(s[..i]));
    ByteLenAtLeastLength(s[..i]);
    assert forall j :: 0 <= j < i ==> s[..i][j] == s[j];
  }

  /** A string that starts with the pattern gives offset 0. */
  lemma SearchPatternAtStart(s: seq<char>)
    requires s != []
    ensures Search(s[0], s) == Some(0)
  {
    IndexOfFirst(s, s[0], 0);
    SearchIsByteOffsetOfFirst(s[0], s);
    assert s[..0] == [];
  }

  /** A pattern that occurs only as the last character is found at the byte length of the rest. */
  lemma SearchPatternOnlyAtEnd(s: seq<char>)
    requires s != [] && s[|s| - 1] !in s[..|s| - 1]
    ensures Search(s[|s| - 1], s) == Some(ByteLen(s[..|s| - 1]))
  {
    var n := |s| - 1;
    forall j | 0 <= j < n ensures s[j] != s[n] {
      assert s[j] == s[..n][j];
    }
    IndexOfFirst(s, s[n], n);
    SearchIsByteOffsetOfFirst(s[n], s);
  }

  /** In "asdf asdf asdf", 'a' is found at the very start. */
  lemma SearchAsdfFirst(s: seq<char>)
    requires s == "asdf asdf asdf"
    ensures Search('a', s) == Some(0)
  {
    IndexOfFirst(s, 'a', 0);
    SearchIsByteOffsetOfFirst('a', s);
  }

  /** In "asdf asdf asdf", 'f' is found at offset 3, not at its later occurrences. */
  lemma SearchAsdfFourth(s: seq<char>)
    requires s == "asdf asdf asdf"
    ensures Search('f', s) == Some(3)
  {
    IndexOfFirst(s, 'f', 3);
    SearchIsByteOffsetOfFirst('f', s);
    ByteLenAtLeastLength(s[..3]);
  }

  /** In "asdf asdf asdf", 'x' is not found. */
  lemma SearchAsdfAbsent(s: seq<char>)
    requires s == "asdf asdf asdf"
    ensures Search('x', s) == None
  {
    SearchNoneIffAbsent('x', s);
  }

  /** In "héllo" the first 'l' is the third character but starts at byte 3, after the two-byte 'é'. */
  lemma SearchTwoByteExample(t: seq<char>)
    requires t == "h\U{E9}llo"
    ensures Search('l', t) == Some(3)
  {
    IndexOfFirst(t, 'l', 2);
    SearchIsByteOffsetOfFirst('l', t);
    assert t[..2] == ['h', '\U{E9}'];
  }

  /** After a four-byte emoji, the next character starts at byte 4. */
  lemma SearchFourByteExample()
    ensures Search('!', "\U{1F600}!") == Some(4)
  {
    var u := "\U{1F600}!";
    IndexOfFirst(u, '!', 1);
    SearchIsByteOffsetOfFirst('!', u);
    assert u[..1] == ['\U{1F600}'];
  }
}
