/**
  Text extraction applied to the files easy-rsa leaves behind.

  A certificate file is scanned for the first PEM-encapsulated certificate, delimited by the
  encapsulation boundaries of section 2 of RFC 7468; a private-key file has its surrounding
  whitespace removed, with the character set of PHP's trim.
 */
module Pem {
  import opened Wrappers

  const Begin: string := "-----BEGIN CERTIFICATE-----"
  const End: string := "-----END CERTIFICATE-----"

  // ---------------------------------------------------------------------------
  // Substring search
  // ---------------------------------------------------------------------------

  /** `pat` occurs in `s` starting at index `k`. */
  predicate OccursAt(s: string, pat: string, k: nat) {
    k + |pat| <= |s| && s[k..k + |pat|] == pat
  }

  /** The first index at or after `from` where `pat` occurs in `s`, if any. */
  function IndexOf(s: string, pat: string, from: nat): (r: Option<nat>)
    decreases |s| - from
    ensures r.Some? ==> from <= r.value && OccursAt(s, pat, r.value)
    ensures r.Some? ==> forall k :: from <= k < r.value ==> !OccursAt(s, pat, k)
    ensures r.None? ==> forall k: nat :: from <= k ==> !OccursAt(s, pat, k)
  {
    if |s| < from + |pat| then None
    else if s[from..from + |pat|] == pat then Some(from)
    else IndexOf(s, pat, from + 1)
  }

  /** An occurrence inside a slice is an occurrence in the whole text, shifted by the slice start. */
  lemma OccursInSlice(s: string, pat: string, i: nat, j: nat, k: nat)
    requires i <= j <= |s|
    ensures OccursAt(s[i..j], pat, k) <==> (k + |pat| <= j - i && OccursAt(s, pat, i + k))
  {
    if k + |pat| <= j - i {
      var inner, outer := s[i..j][k..k + |pat|], s[i + k..i + k + |pat|];
      forall m | 0 <= m < |pat| ensures inner[m] == outer[m] {
        assert inner[m] == s[i + k + m];
      }
      assert inner == outer;
    }
  }

  // ---------------------------------------------------------------------------
  // Encapsulated blocks, for any pair of boundary markers
  // ---------------------------------------------------------------------------

  /** Some `open` marker is followed, without overlap, by a `close` marker. */
  ghost predicate HasBlock(text: string, open: string, close: string) {
    exists i: nat, j: nat :: OccursAt(text, open, i) && OccursAt(text, close, j) && i + |open| <= j
  }

  /**
    The match PCRE reports for `/(open.*close)/sU`: the block starts at the leftmost `open`
    marker (leftmost match) and ends at the first `close` marker that starts after it (the `U`
    flag makes `.*` lazy). `j` is the index of that `close` marker; the block is
    `text[i..j + |close|]`.
   */
  ghost predicate IsFirstBlock(text: string, open: string, close: string, i: nat, j: nat) {
    && OccursAt(text, open, i)
    && (forall k :: 0 <= k < i ==> !OccursAt(text, open, k))
    && i + |open| <= j
    && OccursAt(text, close, j)
    && (forall k :: i + |open| <= k < j ==> !OccursAt(text, close, k))
  }

  /**
    The start of the matched block and the index of its `close` marker, or None when the
    pattern does not match.
   */
  function LocateBlock(text: string, open: string, close: string): (r: Option<(nat, nat)>)
    ensures r.Some? ==> IsFirstBlock(text, open, close, r.value.0, r.value.1)
    ensures r.None? <==> !HasBlock(text, open, close)
  {
    match IndexOf(text, open, 0)
    case None => None
    case Some(i) =>
      match IndexOf(text, close, i + |open|)
      case None =>
        assert !HasBlock(text, open, close) by {
          forall i': nat, j: nat | OccursAt(text, open, i') && i' + |open| <= j
            ensures !OccursAt(text, close, j)
          {
            assert i <= i';
          }
        }
        None
      case Some(j) => Some((i, j))
  }

  /** The leftmost, lazy match is unique: PCRE's answer is determined by the text. */
  lemma FirstBlockUnique(text: string, open: string, close: string, i: nat, j: nat, i': nat, j': nat)
    requires IsFirstBlock(text, open, close, i, j) && IsFirstBlock(text, open, close, i', j')
    ensures i == i' && j == j'
  {
  }

  /** What the matched slice looks like: the markers at its ends and no `close` marker in between. */
  lemma MatchedSlice(text: string, open: string, close: string, i: nat, j: nat)
    requires IsFirstBlock(text, open, close, i, j)
    ensures j + |close| <= |text|
    ensures IsBareBlock(text[i..j + |close|], open, close)
  {
    var e := j + |close|;
    var block := text[i..e];
    assert block[..|open|] == text[i..i + |open|];
    assert block[|block| - |close|..] == text[j..e];
    forall k | |open| <= k < |block| - |close|
      ensures !OccursAt(block, close, k)
    {
      OccursInSlice(text, close, i, e, k);
    }
  }

  /**
    `block` is one encapsulated block and nothing else: it starts with `open`, ends with
    `close`, and holds no other `close` marker after its `open` marker.
   */
  predicate IsBareBlock(block: string, open: string, close: string) {
    && |open| + |close| <= |block|
    && block[..|open|] == open
    && block[|block| - |close|..] == close
    && forall k :: |open| <= k < |block| - |close| ==> !OccursAt(block, close, k)
  }

  /** The first block of the text, with whatever precedes and follows it discarded. */
  function ExtractBlock(text: string, open: string, close: string): (r: Option<string>)
    ensures r.None? <==> !HasBlock(text, open, close)
    ensures r.Some? ==> exists i: nat, j: nat ::
      IsFirstBlock(text, open, close, i, j) && j + |close| <= |text| && r.value == text[i..j + |close|]
    ensures r.Some? ==> IsBareBlock(r.value, open, close)
  {
    match LocateBlock(text, open, close)
    case None => None
    case Some((i, j)) =>
      MatchedSlice(text, open, close, i, j);
      Some(text[i..j + |close|])
  }

  /** A bare block is the first block of itself, so extracting from it returns it whole. */
  lemma ExtractBareBlock(block: string, open: string, close: string)
    requires IsBareBlock(block, open, close)
    ensures ExtractBlock(block, open, close) == Some(block)
  {
    var j := |block| - |close|;
    assert OccursAt(block, open, 0);
    assert OccursAt(block, close, j);
    assert IsFirstBlock(block, open, close, 0, j);
    var loc := LocateBlock(block, open, close);
    FirstBlockUnique(block, open, close, 0, j, loc.value.0, loc.value.1);
    assert block[0..j + |close|] == block;
  }

  /** Extracting from a block that was just extracted returns it unchanged. */
  lemma ExtractBlockIdempotent(text: string, open: string, close: string)
    requires ExtractBlock(text, open, close).Some?
    ensures ExtractBlock(ExtractBlock(text, open, close).value, open, close) == ExtractBlock(text, open, close)
  {
    ExtractBareBlock(ExtractBlock(text, open, close).value, open, close);
  }

  // ---------------------------------------------------------------------------
  // readCertificate: /(-----BEGIN CERTIFICATE-----.*-----END CERTIFICATE-----)/msU
  // ---------------------------------------------------------------------------

  /**
    readCertificate: the first complete certificate block of the file text, from its leftmost
    BEGIN marker to the first END marker after it, with whatever precedes and follows it
    discarded; None (the source's CaException) when the text holds no such block.
   */
  function ReadCertificate(text: string): (r: Option<string>)
    ensures r.None? <==> !HasBlock(text, Begin, End)
    ensures r.Some? ==> exists i: nat, j: nat ::
      IsFirstBlock(text, Begin, End, i, j) && j + |End| <= |text| && r.value == text[i..j + |End|]
    ensures r.Some? ==> IsBareBlock(r.value, Begin, End)
  {
    ExtractBlock(text, Begin, End)
  }

  /**
    A block returned by ReadCertificate holds exactly one certificate and no surrounding text:
    reading it again returns it unchanged.
   */
  lemma ReadCertificateIdempotent(text: string)
    requires ReadCertificate(text).Some?
    ensures ReadCertificate(ReadCertificate(text).value) == ReadCertificate(text)
  {
    ExtractBlockIdempotent(text, Begin, End);
  }

  // ---------------------------------------------------------------------------
  // readKey: PHP trim()
  // ---------------------------------------------------------------------------

  /** The characters PHP's trim removes by default: space, tab, LF, CR, NUL and vertical tab. */
  predicate IsTrimmable(c: char) {
    c == ' ' || c == '\t' || c == '\n' || c == '\r' || c == '\0' || c == '\U{B}'
  }

  /** Every character of `s` from index `lo` up to `hi` is trimmable. */
  predicate TrimmableIn(s: string, lo: nat, hi: nat)
    requires lo <= hi <= |s|
  {
    forall k :: lo <= k < hi ==> IsTrimmable(s[k])
  }

  predicate AllTrimmable(s: string) {
    TrimmableIn(s, 0, |s|)
  }

  /** Neither end of `s` is a trimmable character. */
  predicate IsTrimmed(s: string) {
    s == [] || (!IsTrimmable(s[0]) && !IsTrimmable(s[|s| - 1]))
  }

  /** The index of the first character at or after `from` that trim keeps, or `|s|`. */
  function TrimStart(s: string, from: nat): (n: nat)
    requires from <= |s|
    decreases |s| - from
    ensures from <= n <= |s| && TrimmableIn(s, from, n)
    ensures n == |s| || !IsTrimmable(s[n])
  {
    if from < |s| && IsTrimmable(s[from]) then TrimStart(s, from + 1) else from
  }

  /** The index just past the last character before `hi`, and at or after `lo`, that trim keeps, or `lo`. */
  function TrimEnd(s: string, lo: nat, hi: nat): (m: nat)
    requires lo <= hi <= |s|
    decreases hi - lo
    ensures lo <= m <= hi && TrimmableIn(s, m, hi)
    ensures m == lo || !IsTrimmable(s[m - 1])
  {
    if lo < hi && IsTrimmable(s[hi - 1]) then TrimEnd(s, lo, hi - 1) else hi
  }

  /**
    readKey: the key file text with surrounding whitespace removed. The result is a slice of
    the input with only trimmable characters cut away on either side, and neither of its ends
    is trimmable.
   */
  function ReadKey(text: string): (r: string)
    ensures IsTrimmed(r)
    ensures exists i: nat :: i + |r| <= |text| && text[i..i + |r|] == r
                          && TrimmableIn(text, 0, i) && TrimmableIn(text, i + |r|, |text|)
  {
    var i := TrimStart(text, 0);
    var m := TrimEnd(text, i, |text|);
    assert |text[i..m]| == m - i;
    text[i..m]
  }

  /** TrimStart stops exactly at the first kept character: any index with that property is its result. */
  lemma TrimStartUnique(s: string, from: nat, n: nat)
    requires from <= n <= |s| && TrimmableIn(s, from, n)
    requires n == |s| || !IsTrimmable(s[n])
    ensures TrimStart(s, from) == n
  {
  }

  lemma TrimEndUnique(s: string, lo: nat, hi: nat, m: nat)
    requires lo <= m <= hi <= |s| && TrimmableIn(s, m, hi)
    requires m == lo || !IsTrimmable(s[m - 1])
    ensures TrimEnd(s, lo, hi) == m
  {
  }

  /**
    ReadKey is the one trimming that PHP's trim specifies: for any text made of trimmable
    characters, a trimmed core and trimmable characters, it returns exactly the core.
   */
  lemma ReadKeyCharacterization(pre: string, core: string, post: string)
    requires AllTrimmable(pre) && AllTrimmable(post) && IsTrimmed(core)
    ensures ReadKey(pre + core + post) == core
  {
    var text := pre + core + post;
    if core == [] {
      assert TrimmableIn(text, 0, |text|) by {
        forall k | 0 <= k < |text| ensures IsTrimmable(text[k]) {
          if k < |pre| { assert text[k] == pre[k]; } else { assert text[k] == post[k - |pre|]; }
        }
      }
      TrimStartUnique(text, 0, |text|);
      TrimEndUnique(text, |text|, |text|, |text|);
    } else {
      var e := |pre| + |core|;
      assert TrimmableIn(text, 0, |pre|) by {
        forall k | 0 <= k < |pre| ensures IsTrimmable(text[k]) { assert text[k] == pre[k]; }
      }
      assert text[|pre|] == core[0];
      TrimStartUnique(text, 0, |pre|);
      assert TrimmableIn(text, e, |text|) by {
        forall k | e <= k < |text| ensures IsTrimmable(text[k]) { assert text[k] == post[k - e]; }
      }
      assert text[e - 1] == core[|core| - 1];
      TrimEndUnique(text, |pre|, |text|, e);
      assert text[|pre|..e] == core;
    }
  }

  /** Trimming an already trimmed key changes nothing. */
  lemma ReadKeyIdempotent(text: string)
    ensures ReadKey(ReadKey(text)) == ReadKey(text)
  {
    var r := ReadKey(text);
    TrimStartUnique(r, 0, 0);
    TrimEndUnique(r, 0, |r|, |r|);
    assert r[0..|r|] == r;
  }
}
