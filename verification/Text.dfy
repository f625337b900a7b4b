/** Trimming and lower-casing of text, and the shape of a trimmed text. */
module Text {

  /** White space as the source's trimming sees it. */
  predicate IsSpace(c: char) {
    || '\t' <= c <= '\r' || c == ' ' || c == '\U{85}' || c == '\U{a0}' || c == '\U{1680}'
    || '\U{2000}' <= c <= '\U{200a}' || c == '\U{2028}' || c == '\U{2029}'
    || c == '\U{202f}' || c == '\U{205f}' || c == '\U{3000}'
  }

  function TrimLeft(s: string): string {
    if s != "" && IsSpace(s[0]) then TrimLeft(s[1..]) else s
  }

  function TrimRight(s: string): string {
    if s != "" && IsSpace(s[|s| - 1]) then TrimRight(s[..|s| - 1]) else s
  }

  function TrimSpace(s: string): string { TrimRight(TrimLeft(s)) }

  function LowerChar(c: char): char {
    if 'A' <= c <= 'Z' then c + 'a' - 'A' else c
  }

  function Lower(s: string): (r: string)
    ensures |r| == |s| && forall i | 0 <= i < |s| :: r[i] == LowerChar(s[i])
  {
    seq(|s|, i requires 0 <= i < |s| => LowerChar(s[i]))
  }

  predicate AllSpace(s: string) { forall i | 0 <= i < |s| :: IsSpace(s[i]) }

  lemma {:induction false} TrimLeftShape(s: string) returns (k: nat)
    ensures k <= |s| && TrimLeft(s) == s[k..] && AllSpace(s[..k])
    ensures k < |s| ==> !IsSpace(s[k])
  {
    if s != "" && IsSpace(s[0]) {
      var rest := TrimLeftShape(s[1..]);
      k := rest + 1;
    } else {
      k := 0;
    }
  }

  lemma {:induction false} TrimRightShape(s: string) returns (m: nat)
    ensures m <= |s| && TrimRight(s) == s[..m] && AllSpace(s[m..])
    ensures 0 < m ==> !IsSpace(s[m - 1])
  {
    if s != "" && IsSpace(s[|s| - 1]) {
      m := TrimRightShape(s[..|s| - 1]);
      assert s[..|s| - 1][..m] == s[..m];
      assert s[m..] == s[..|s| - 1][m..] + [s[|s| - 1]];
    } else {
      m := |s|;
    }
  }

  /** Trimming keeps a middle part and drops only white space around it. */
  lemma TrimShape(s: string) returns (k: nat, m: nat)
    ensures k <= m <= |s| && TrimSpace(s) == s[k..m]
    ensures forall i | 0 <= i < k || m <= i < |s| :: IsSpace(s[i])
  {
    k := TrimLeftShape(s);
    var width := TrimRightShape(s[k..]);
    m := k + width;
    assert s[k..][..width] == s[k..m];
    forall i | 0 <= i < k || m <= i < |s| ensures IsSpace(s[i]) {
      assert i < k ==> s[..k][i] == s[i];
      assert m <= i ==> s[k..][width..][i - m] == s[i];
    }
  }

  /** A part of the text with nothing but white space around it, and none at its own ends. */
  ghost predicate IsCore(s: string, k: nat, m: nat) {
    && k <= m <= |s|
    && (forall i | 0 <= i < k || m <= i < |s| :: IsSpace(s[i]))
    && (k < m ==> !IsSpace(s[k]) && !IsSpace(s[m - 1]))
  }

  /** Trimming gives the core of the text, all of the white space around it gone. */
  lemma TrimExactly(s: string, k: nat, m: nat)
    requires IsCore(s, k, m)
    ensures TrimSpace(s) == s[k..m]
  {
    var left := TrimLeftShape(s);
    var width := TrimRightShape(s[left..]);
    assert s[left..][..width] == s[left..left + width];
    forall i | left + width <= i < |s| ensures IsSpace(s[i]) {
      assert s[left..][width..][i - left - width] == s[i];
    }
    assert 0 < width ==> !IsSpace(s[left..][width - 1]);
    forall i | 0 <= i < left ensures IsSpace(s[i]) {
      assert s[..left][i] == s[i];
    }
    if k < m {
      assert left == k && left + width == m;
    } else {
      assert width == 0;
    }
  }

  /** The text is the word at k with white space around it. */
  ghost predicate Wraps(s: string, word: string, k: nat) {
    && k + |word| <= |s| && s[k..k + |word|] == word
    && forall i | 0 <= i < k || k + |word| <= i < |s| :: IsSpace(s[i])
  }

  /** So a text trims to a given word exactly when it is that word with white space around it. */
  lemma TrimsTo(s: string, word: string)
    requires word != "" ==> !IsSpace(word[0]) && !IsSpace(word[|word| - 1])
    ensures TrimSpace(s) == word <==> exists k: nat :: Wraps(s, word, k)
  {
    if TrimSpace(s) == word {
      var k, m := TrimShape(s);
      assert Wraps(s, word, k);
    }
    forall k: nat | Wraps(s, word, k) ensures TrimSpace(s) == word {
      assert word != "" ==> s[k] == word[0] && s[k + |word| - 1] == word[|word| - 1];
      TrimExactly(s, k, k + |word|);
    }
  }
}
