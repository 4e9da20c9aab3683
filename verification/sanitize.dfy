/** Message body sanitising: strip, replace every case-insensitive occurrence of a
    blocked word by "***", one word after the other, then cut to 2000 characters. */
module Sanitize {
  import opened Domain
  import opened Text

  const BlockedWords: seq<string> := ["spam", "hack", "phish"]
  const Mask: string := "***"
  const MaxBodyLength: int := 2000

  /** A word the filter can hold: non-empty lower-case ASCII letters. */
  predicate PlainWord(w: string) {
    w != [] && forall j :: 0 <= j < |w| ==> IsLower(w[j])
  }

  lemma BlockedWordsArePlain()
    ensures forall i :: 0 <= i < |BlockedWords| ==> PlainWord(BlockedWords[i])
  {
  }

  /** The case-insensitive pattern w matches t at position i. */
  predicate MatchesAt(t: string, w: string, i: int) {
    0 <= i && i + |w| <= |t| && forall j :: 0 <= j < |w| ==> Lower(t[i + j]) == w[j]
  }

  predicate NoMatch(t: string, w: string) {
    forall i | 0 <= i <= |t| :: !MatchesAt(t, w, i)
  }

  /** pattern.sub("***", t): scan left to right, replace each match and continue
      after it. */
  function ReplaceAll(t: string, w: string): (r: string)
    requires w != []
    ensures t != [] ==> r != []
    decreases |t|
  {
    if |t| < |w| then t
    else if MatchesAt(t, w, 0) then Mask + ReplaceAll(t[|w|..], w)
    else [t[0]] + ReplaceAll(t[1..], w)
  }

  /** Each prefix of the output either is the same prefix of the input or already
      holds a '*'. */
  lemma {:induction false} ReplacePrefix(t: string, w: string, k: int)
    requires w != []
    requires 0 <= k <= |ReplaceAll(t, w)| && k <= |t|
    ensures ReplaceAll(t, w)[..k] == t[..k] || '*' in ReplaceAll(t, w)[..k]
    decreases |t|
  {
    var r := ReplaceAll(t, w);
    if |t| < |w| || k == 0 {
    } else if MatchesAt(t, w, 0) {
      assert r[0] == '*';
    } else {
      var rest := ReplaceAll(t[1..], w);
      ReplacePrefix(t[1..], w, k - 1);
      assert r[..k] == [t[0]] + rest[..k - 1];
      if rest[..k - 1] == t[1..][..k - 1] {
        assert r[..k] == t[..k];
      } else {
        var q :| 0 <= q < k - 1 && rest[..k - 1][q] == '*';
        assert r[..k][q + 1] == '*';
      }
    }
  }

  /** A plain word never matches where a '*' sits in its window. */
  lemma StarBlocksMatch(t: string, w: string, i: int, q: int)
    requires PlainWord(w)
    requires 0 <= i <= q < i + |w| && q < |t| && t[q] == '*'
    ensures !MatchesAt(t, w, i)
  {
    var j := q - i;
    assert Lower(t[i + j]) == '*' && IsLower(w[j]);
  }

  /** No occurrence of the replaced word survives. */
  lemma {:induction false} ReplaceLeavesNoMatch(t: string, w: string)
    requires PlainWord(w)
    ensures NoMatch(ReplaceAll(t, w), w)
    decreases |t|
  {
    var r := ReplaceAll(t, w);
    if |t| < |w| {
    } else if MatchesAt(t, w, 0) {
      var rest := ReplaceAll(t[|w|..], w);
      ReplaceLeavesNoMatch(t[|w|..], w);
      forall p ensures !MatchesAt(r, w, p) {
        if 0 <= p < 3 {
          if p + |w| <= |r| {
            StarBlocksMatch(r, w, p, p);
          }
        } else if MatchesAt(r, w, p) {
          assert MatchesAt(rest, w, p - 3) by {
            forall j | 0 <= j < |w| ensures Lower(rest[p - 3 + j]) == w[j] {
              assert r[p + j] == rest[p - 3 + j];
            }
          }
        }
      }
    } else {
      var rest := ReplaceAll(t[1..], w);
      ReplaceLeavesNoMatch(t[1..], w);
      forall p ensures !MatchesAt(r, w, p) {
        if p == 0 && |w| <= |r| {
          ReplacePrefix(t, w, |w|);
          if r[..|w|] == t[..|w|] {
            var j :| 0 <= j < |w| && Lower(t[j]) != w[j];
            assert r[j] == r[..|w|][j];
          } else {
            var q :| 0 <= q < |w| && r[..|w|][q] == '*';
            StarBlocksMatch(r, w, 0, q);
          }
        } else if p >= 1 && MatchesAt(r, w, p) {
          assert MatchesAt(rest, w, p - 1) by {
            forall j | 0 <= j < |w| ensures Lower(rest[p - 1 + j]) == w[j] {
              assert r[p + j] == rest[p - 1 + j];
            }
          }
        }
      }
    }
  }

  /** Replacing one word never creates an occurrence of another plain word: every
      match in the output is a match in the input. */
  lemma {:induction false} ReplaceKeepsAbsence(t: string, w: string, v: string)
    requires PlainWord(w) && PlainWord(v)
    requires NoMatch(t, v)
    ensures NoMatch(ReplaceAll(t, w), v)
    decreases |t|
  {
    var r := ReplaceAll(t, w);
    if |t| < |w| {
    } else if MatchesAt(t, w, 0) {
      var rest := ReplaceAll(t[|w|..], w);
      forall i ensures !MatchesAt(t[|w|..], v, i) {
        if MatchesAt(t[|w|..], v, i) {
          assert MatchesAt(t, v, i + |w|) by {
            forall j | 0 <= j < |v| ensures Lower(t[i + |w| + j]) == v[j] {
              assert t[|w|..][i + j] == t[i + |w| + j];
            }
          }
        }
      }
      ReplaceKeepsAbsence(t[|w|..], w, v);
      forall p ensures !MatchesAt(r, v, p) {
        if 0 <= p < 3 {
          if p + |v| <= |r| {
            StarBlocksMatch(r, v, p, p);
          }
        } else if MatchesAt(r, v, p) {
          assert MatchesAt(rest, v, p - 3) by {
            forall j | 0 <= j < |v| ensures Lower(rest[p - 3 + j]) == v[j] {
              assert r[p + j] == rest[p - 3 + j];
            }
          }
        }
      }
    } else {
      var rest := ReplaceAll(t[1..], w);
      forall i ensures !MatchesAt(t[1..], v, i) {
        if MatchesAt(t[1..], v, i) {
          assert MatchesAt(t, v, i + 1) by {
            forall j | 0 <= j < |v| ensures Lower(t[i + 1 + j]) == v[j] {
              assert t[1..][i + j] == t[i + 1 + j];
            }
          }
        }
      }
      ReplaceKeepsAbsence(t[1..], w, v);
      forall p ensures !MatchesAt(r, v, p) {
        if p == 0 && |v| <= |r| && |v| <= |t| {
          ReplacePrefix(t, w, |v|);
          if r[..|v|] == t[..|v|] {
            if MatchesAt(r, v, 0) {
              assert MatchesAt(t, v, 0) by {
                forall j | 0 <= j < |v| ensures Lower(t[j]) == v[j] {
                  assert t[j] == t[..|v|][j] == r[..|v|][j] == r[j];
                }
              }
            }
          } else {
            var q :| 0 <= q < |v| && r[..|v|][q] == '*';
            StarBlocksMatch(r, v, 0, q);
          }
        } else if p == 0 && |v| <= |r| {
          LengthNotGrownPastMatch(t, w, |v|);
          var q :| 0 <= q < |v| && r[..|v|][q] == '*';
          StarBlocksMatch(r, v, 0, q);
        } else if p >= 1 && MatchesAt(r, v, p) {
          assert MatchesAt(rest, v, p - 1) by {
            forall j | 0 <= j < |v| ensures Lower(rest[p - 1 + j]) == v[j] {
              assert r[p + j] == rest[p - 1 + j];
            }
          }
        }
      }
    }
  }

  /** When the input is shorter than a window the output holds a '*' in it, or is
      shorter too. */
  lemma LengthNotGrownPastMatch(t: string, w: string, n: int)
    requires w != []
    requires |t| < n <= |ReplaceAll(t, w)|
    ensures '*' in ReplaceAll(t, w)[..n]
  {
    ReplaceGrowsOnlyWithStars(t, w);
  }

  /** The output is longer than the input only if a replacement happened. */
  lemma {:induction false} ReplaceGrowsOnlyWithStars(t: string, w: string)
    requires w != []
    ensures |ReplaceAll(t, w)| > |t| ==> '*' in ReplaceAll(t, w)[..|t| + 1]
    decreases |t|
  {
    var r := ReplaceAll(t, w);
    if |t| < |w| {
    } else if MatchesAt(t, w, 0) {
      assert r[0] == '*';
    } else {
      var rest := ReplaceAll(t[1..], w);
      ReplaceGrowsOnlyWithStars(t[1..], w);
      if |r| > |t| {
        var q :| 0 <= q < |t| && rest[..|t[1..]| + 1][q] == '*';
        assert r[..|t| + 1][q + 1] == '*';
      }
    }
  }

  /** Without an occurrence the text comes back unchanged. */
  lemma {:induction false} ReplaceIdentity(t: string, w: string)
    requires w != []
    requires NoMatch(t, w)
    ensures ReplaceAll(t, w) == t
    decreases |t|
  {
    if |t| >= |w| {
      assert !MatchesAt(t, w, 0);
      forall i ensures !MatchesAt(t[1..], w, i) {
        if MatchesAt(t[1..], w, i) {
          assert MatchesAt(t, w, i + 1) by {
            forall j | 0 <= j < |w| ensures Lower(t[i + 1 + j]) == w[j] {
              assert t[1..][i + j] == t[i + 1 + j];
            }
          }
        }
      }
      ReplaceIdentity(t[1..], w);
    }
  }

  /** clean[:2000] */
  function Truncate(t: string): (r: string)
    ensures |r| <= MaxBodyLength && |r| <= |t|
    ensures r == t[..|r|]
    ensures |t| <= MaxBodyLength ==> r == t
    ensures |t| > MaxBodyLength ==> |r| == MaxBodyLength
  {
    if |t| > MaxBodyLength then t[..MaxBodyLength] else t
  }

  /** A prefix of a text without an occurrence has none either. */
  lemma PrefixKeepsAbsence(t: string, n: int, w: string)
    requires 0 <= n <= |t| && NoMatch(t, w)
    ensures NoMatch(t[..n], w)
  {
    forall i ensures !MatchesAt(t[..n], w, i) {
      if MatchesAt(t[..n], w, i) {
        assert MatchesAt(t, w, i) by {
          forall j | 0 <= j < |w| ensures Lower(t[i + j]) == w[j] {
            assert t[..n][i + j] == t[i + j];
          }
        }
      }
    }
  }

  /** The stripped text with the first `count` blocked words replaced in turn. */
  function ReplaceWords(t: string, count: nat): string
    requires count <= |BlockedWords|
  {
    if count == 0 then t else ReplaceAll(ReplaceWords(t, count - 1), BlockedWords[count - 1])
  }

  /** sanitize_body as a value: "" for None or "", otherwise strip, replace, truncate. */
  function Sanitized(text: Option<string>): (r: string)
    ensures |r| <= MaxBodyLength
    ensures text.None? ==> r == []
  {
    if text.None? || text.value == [] then []
    else Truncate(ReplaceWords(Strip(text.value), |BlockedWords|))
  }

  /** sanitize_body */
  method SanitizeBody(text: Option<string>) returns (clean: string)
    ensures clean == Sanitized(text)
    ensures |clean| <= MaxBodyLength
    ensures forall i :: 0 <= i < |BlockedWords| ==> NoMatch(clean, BlockedWords[i])
  {
    if text.None? || text.value == [] {
      return [];
    }
    clean := Strip(text.value);
    var stripped := clean;
    BlockedWordsArePlain();
    for i := 0 to |BlockedWords|
      invariant clean == ReplaceWords(stripped, i)
      invariant forall j :: 0 <= j < i ==> NoMatch(clean, BlockedWords[j])
    {
      var before := clean;
      clean := ReplaceAll(clean, BlockedWords[i]);
      ReplaceLeavesNoMatch(before, BlockedWords[i]);
      forall j | 0 <= j < i ensures NoMatch(clean, BlockedWords[j]) {
        ReplaceKeepsAbsence(before, BlockedWords[i], BlockedWords[j]);
      }
    }
    var replaced := clean;
    if |clean| > MaxBodyLength {
      clean := clean[..MaxBodyLength];
    }
    forall j | 0 <= j < |BlockedWords| ensures NoMatch(clean, BlockedWords[j]) {
      PrefixKeepsAbsence(replaced, |clean|, BlockedWords[j]);
    }
  }

  /** None, "" and whitespace-only input give "". */
  lemma BlankGivesEmpty(text: Option<string>)
    requires text.None? || AllSpace(text.value)
    ensures Sanitized(text) == []
  {
    if text.Some? && text.value != [] {
      StripEmptyIff(text.value);
      EmptyStaysEmpty(|BlockedWords|);
    }
  }

  lemma {:induction false} EmptyStaysEmpty(count: nat)
    requires count <= |BlockedWords|
    ensures ReplaceWords([], count) == []
  {
    if count > 0 {
      EmptyStaysEmpty(count - 1);
    }
  }

  /** A body that is not blank stays non-empty. */
  lemma {:induction false} NonBlankStaysNonEmpty(t: string, count: nat)
    requires count <= |BlockedWords| && t != []
    ensures ReplaceWords(t, count) != []
  {
    if count > 0 {
      NonBlankStaysNonEmpty(t, count - 1);
    }
  }

  lemma NonBlankSanitizedNonEmpty(text: string)
    requires !AllSpace(text)
    ensures Sanitized(Some(text)) != []
  {
    StripEmptyIff(text);
    NonBlankStaysNonEmpty(Strip(text), |BlockedWords|);
  }

  /** Text free of blocked words comes back as its stripped form, cut to 2000. */
  lemma {:induction false} CleanTextUnchanged(t: string, count: nat)
    requires count <= |BlockedWords|
    requires forall i :: 0 <= i < |BlockedWords| ==> NoMatch(t, BlockedWords[i])
    ensures ReplaceWords(t, count) == t
  {
    if count > 0 {
      CleanTextUnchanged(t, count - 1);
      ReplaceIdentity(t, BlockedWords[count - 1]);
    }
  }

  lemma CleanBodyKept(text: string)
    requires text != []
    requires forall i :: 0 <= i < |BlockedWords| ==> NoMatch(Strip(text), BlockedWords[i])
    ensures Sanitized(Some(text)) == Truncate(Strip(text))
    ensures |Strip(text)| <= MaxBodyLength ==> Sanitized(Some(text)) == Strip(text)
    ensures |Strip(text)| > MaxBodyLength ==> |Sanitized(Some(text))| == MaxBodyLength
  {
    CleanTextUnchanged(Strip(text), |BlockedWords|);
  }
}
