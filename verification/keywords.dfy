/** Keyword extraction for the search concierge: the empty-input guard, the rule-based
    fallback, and the clean-up of a model's comma-separated reply. The model call
    itself is a parameter: no client, a reply text, or a failure. */
module Keywords {
  import opened Domain
  import opened Text

  const Stopwords: set<string> := {"for", "the", "a", "an", "and", "or", "but", "in", "on", "at",
    "to", "of", "with", "by", "is", "are", "can", "i", "my", "me"}
  const MaxKeywords: nat := 8
  const MaxReplyKeyword: nat := 40

  predicate NoDuplicates(xs: seq<string>) {
    forall i, j :: 0 <= i < j < |xs| ==> xs[i] != xs[j]
  }

  predicate IsNumeral(n: string) {
    n != [] && forall k :: 0 <= k < |n| ==> IsDigit(n[k])
  }

  /** query_lower.replace(",", " ").replace("?", " ") */
  function Spaced(s: string): (r: string)
    ensures |r| == |s| && ',' !in r && '?' !in r
  {
    seq(|s|, i requires 0 <= i < |s| => if s[i] == ',' || s[i] == '?' then ' ' else s[i])
  }

  /** The tokens kept: longer than two characters and not a stopword. */
  function TokenKeywords(words: seq<string>): (r: seq<string>)
    ensures forall w :: w in r <==> w in words && |w| > 2 && w !in Stopwords
  {
    if words == [] then []
    else
      var rest := TokenKeywords(words[..|words| - 1]);
      var w := words[|words| - 1];
      assert words == words[..|words| - 1] + [w];
      if |w| > 2 && w !in Stopwords then rest + [w] else rest
  }

  /** Length of the leading run of digits. */
  function DigitRunLength(s: string): (n: nat)
    ensures n <= |s|
    ensures forall k :: 0 <= k < n ==> IsDigit(s[k])
    ensures n < |s| ==> !IsDigit(s[n])
  {
    if s == [] || !IsDigit(s[0]) then 0 else 1 + DigitRunLength(s[1..])
  }

  /** re.findall(r'\b\d+\b', s[i..]) on ASCII text, scanning from a position that is
      not inside a digit run: the maximal digit runs with no word character right
      before or right after them. */
  function Numbers(s: string, i: nat): (r: seq<string>)
    requires i <= |s|
    ensures forall n :: n in r ==> IsNumeral(n)
    decreases |s| - i
  {
    if i == |s| then []
    else if IsDigit(s[i]) && (i == 0 || !IsWordChar(s[i - 1])) then
      var j := i + DigitRunLength(s[i..]);
      assert forall k :: i <= k < j ==> s[k] == s[i..][k - i];
      if j == |s| || !IsWordChar(s[j]) then [s[i..j]] + Numbers(s, j) else Numbers(s, j)
    else Numbers(s, i + 1)
  }

  /** s[a..b] is a match of `\b\d+\b`: a non-empty run of digits with the edge of
      the text or a non-word character on each side. */
  predicate StandaloneRun(s: string, a: int, b: int) {
    0 <= a < b <= |s| && IsNumeral(s[a..b])
    && (a == 0 || !IsWordChar(s[a - 1])) && (b == |s| || !IsWordChar(s[b]))
  }

  /** A standalone run that starts inside the digit run s[i..j] is that run. */
  lemma RunStartsAt(s: string, i: int, j: int, a: int, b: int)
    requires 0 <= i < j <= |s| && (forall k :: i <= k < j ==> IsDigit(s[k]))
    requires j == |s| || !IsDigit(s[j])
    requires i <= a < j && StandaloneRun(s, a, b)
    ensures a == i && b == j
  {
    forall k | a <= k < b ensures IsDigit(s[k]) {
      assert s[a..b][k - a] == s[k];
    }
  }

  /** At the start of a digit run Numbers finds that run, when it is standalone,
      and then whatever it finds from the run's end. */
  lemma NumbersAtRun(s: string, i: nat) returns (j: nat)
    requires i < |s| && IsDigit(s[i]) && (i == 0 || !IsWordChar(s[i - 1]))
    ensures i < j <= |s| && (forall k :: i <= k < j ==> IsDigit(s[k])) && (j < |s| ==> !IsDigit(s[j]))
    ensures forall n :: n in Numbers(s, i) <==> n in Numbers(s, j) || (StandaloneRun(s, i, j) && n == s[i..j])
  {
    j := i + DigitRunLength(s[i..]);
    forall k | i <= k < j ensures IsDigit(s[k]) {
      assert s[k] == s[i..][k - i];
    }
    assert j < |s| ==> s[j] == s[i..][j - i];
    assert IsNumeral(s[i..j]) by {
      assert forall k :: 0 <= k < j - i ==> s[i..j][k] == s[i + k];
    }
    var here := j == |s| || !IsWordChar(s[j]);
    assert here ==> Numbers(s, i) == [s[i..j]] + Numbers(s, j);
    assert !here ==> Numbers(s, i) == Numbers(s, j);
  }

  /** Every standalone digit run that starts at or after i is found. */
  lemma {:induction false} StandaloneRunsFound(s: string, i: nat)
    requires i <= |s|
    ensures forall a, b :: i <= a && StandaloneRun(s, a, b) ==> s[a..b] in Numbers(s, i)
    decreases |s| - i
  {
    if i == |s| {
    } else if IsDigit(s[i]) && (i == 0 || !IsWordChar(s[i - 1])) {
      var j := NumbersAtRun(s, i);
      StandaloneRunsFound(s, j);
      forall a, b | i <= a && StandaloneRun(s, a, b) ensures s[a..b] in Numbers(s, i) {
        if a < j {
          RunStartsAt(s, i, j, a, b);
        }
      }
    } else {
      StandaloneRunsFound(s, i + 1);
      forall a, b | i <= a && StandaloneRun(s, a, b) ensures s[a..b] in Numbers(s, i) {
        assert s[a..b][0] == s[a];
        assert a != i;
      }
    }
  }

  /** Everything found is a standalone digit run that starts at or after i. */
  lemma {:induction false} FoundAreStandaloneRuns(s: string, i: nat)
    requires i <= |s|
    ensures forall n :: n in Numbers(s, i) ==> exists a, b :: i <= a && StandaloneRun(s, a, b) && n == s[a..b]
    decreases |s| - i
  {
    if i == |s| {
    } else if IsDigit(s[i]) && (i == 0 || !IsWordChar(s[i - 1])) {
      var j := NumbersAtRun(s, i);
      FoundAreStandaloneRuns(s, j);
    } else {
      FoundAreStandaloneRuns(s, i + 1);
    }
  }

  /** Numbers(s, i) finds exactly the standalone digit runs of s that start at or
      after i, as re.findall(r'\b\d+\b', ...) does. */
  lemma NumbersAreStandaloneRuns(s: string, i: nat)
    requires i <= |s|
    ensures forall n :: n in Numbers(s, i) <==> exists a, b :: i <= a && StandaloneRun(s, a, b) && n == s[a..b]
  {
    StandaloneRunsFound(s, i);
    FoundAreStandaloneRuns(s, i);
  }

  /** [f"{n}person" for n in numbers if int(n) <= 20] */
  function PersonKeywords(numbers: seq<string>): (r: seq<string>)
    requires forall n :: n in numbers ==> IsNumeral(n)
    ensures forall w :: w in r <==> exists n :: n in numbers && IsNumeral(n) && DigitsValue(n) <= 20 && w == n + "person"
  {
    if numbers == [] then []
    else
      var rest := PersonKeywords(numbers[..|numbers| - 1]);
      var n := numbers[|numbers| - 1];
      assert n in numbers && IsNumeral(n);
      assert numbers == numbers[..|numbers| - 1] + [n];
      if DigitsValue(n) <= 20 then rest + [n + "person"] else rest
  }

  const QuietWords: seq<string> := ["quiet", "study", "individual"]
  const MusicWords: seq<string> := ["music", "practice", "instrument"]
  const GroupWords: seq<string> := ["meeting", "conference", "group"]

  predicate AsksQuiet(q: string) { Contains(q, "quiet") || Contains(q, "silent") }
  predicate AsksMusic(q: string) { Contains(q, "music") }
  predicate AsksGroup(q: string) { Contains(q, "group") || Contains(q, "meeting") }

  /** One of the fixed expansions the query triggers: quiet, study, individual for
      "quiet" or "silent"; music, practice, instrument for "music"; meeting,
      conference, group for "group" or "meeting". */
  predicate PhraseCandidate(q: string, w: string) {
    (w in QuietWords && AsksQuiet(q)) || (w in MusicWords && AsksMusic(q)) || (w in GroupWords && AsksGroup(q))
  }

  /** The fixed expansions for quiet/silent, music and group/meeting. */
  function PhraseKeywords(q: string): (r: seq<string>)
    ensures forall w :: w in r <==> PhraseCandidate(q, w)
  {
    var a := if AsksQuiet(q) then QuietWords else [];
    var b := if AsksMusic(q) then MusicWords else [];
    var c := if AsksGroup(q) then GroupWords else [];
    assert forall w :: w in a + b + c <==> w in a || w in b || w in c;
    a + b + c
  }

  /** Every fixed expansion is longer than two characters. */
  lemma ExpansionsAreLong()
    ensures forall w :: w in QuietWords || w in MusicWords || w in GroupWords ==> |w| > 2
  {
  }

  /** The list fallback_keywords builds before removing duplicates. */
  function RawKeywords(query: string): (r: seq<string>)
    ensures forall w :: w in r ==> |w| > 2
  {
    var q := LowerStr(query);
    var tokens := TokenKeywords(Words(Spaced(q)));
    var persons := PersonKeywords(Numbers(q, 0));
    var phrases := PhraseKeywords(q);
    assert forall w :: w in persons ==> |w| > 2;
    ExpansionsAreLong();
    assert forall w :: w in tokens + persons + phrases ==> w in tokens || w in persons || w in phrases;
    tokens + persons + phrases
  }

  /** A kept token of the lowercased query. */
  predicate TokenCandidate(q: string, w: string) {
    w in Words(Spaced(q)) && |w| > 2 && w !in Stopwords
  }

  /** "{n}person" for a standalone number n of at most 20. */
  predicate PersonCandidate(q: string, w: string) {
    exists n :: n in Numbers(q, 0) && IsNumeral(n) && DigitsValue(n) <= 20 && w == n + "person"
  }

  /** What may appear among the fallback keywords of a query, stated rule by rule. */
  predicate Candidate(query: string, w: string) {
    var q := LowerStr(query);
    TokenCandidate(q, w) || PersonCandidate(q, w) || PhraseCandidate(q, w)
  }

  lemma RawKeywordsAreCandidates(query: string)
    ensures forall w :: w in RawKeywords(query) <==> Candidate(query, w)
  {
    var q := LowerStr(query);
    var tokens := TokenKeywords(Words(Spaced(q)));
    var persons := PersonKeywords(Numbers(q, 0));
    var phrases := PhraseKeywords(q);
    assert RawKeywords(query) == tokens + persons + phrases;
    forall w ensures w in tokens + persons + phrases <==> Candidate(query, w) {
      assert w in tokens <==> TokenCandidate(q, w);
      assert w in persons <==> PersonCandidate(q, w);
      assert w in phrases <==> PhraseCandidate(q, w);
    }
  }

  /** The distinct elements in order of first occurrence. */
  function Distinct(xs: seq<string>): (r: seq<string>)
    ensures NoDuplicates(r)
    ensures forall x :: x in r <==> x in xs
  {
    if xs == [] then []
    else
      var rest := Distinct(xs[..|xs| - 1]);
      var x := xs[|xs| - 1];
      assert xs == xs[..|xs| - 1] + [x];
      if x in rest then rest else rest + [x]
  }

  /** fallback_keywords: at most eight distinct keywords, each one allowed by the
      rules; every allowed keyword is kept unless the cap of eight was reached. */
  function FallbackKeywords(query: string): (r: seq<string>)
    ensures |r| <= MaxKeywords && NoDuplicates(r)
    ensures forall w :: w in r ==> Candidate(query, w)
    ensures |r| == MaxKeywords || forall w :: Candidate(query, w) ==> w in r
  {
    RawKeywordsAreCandidates(query);
    var all := Distinct(RawKeywords(query));
    if |all| <= MaxKeywords then all
    else
      PrefixOfDistinct(all, MaxKeywords);
      all[..MaxKeywords]
  }

  /** A prefix of a list without duplicates has none and holds only its elements. */
  lemma PrefixOfDistinct(xs: seq<string>, n: nat)
    requires NoDuplicates(xs) && n <= |xs|
    ensures NoDuplicates(xs[..n]) && |xs[..n]| == n
    ensures forall w :: w in xs[..n] ==> w in xs
  {
    assert forall k :: 0 <= k < n ==> xs[..n][k] == xs[k];
  }

  /** A keyword taken from a reply: non-empty, at most 40 characters, lower case. */
  predicate ReplyShaped(w: string) {
    w != [] && |w| <= MaxReplyKeyword && forall k :: 0 <= k < |w| ==> !IsUpper(w[k])
  }

  /** One cleaned reply piece: stripped, lowercased, cut to 40 characters. */
  function CleanPiece(p: string): (r: string)
    requires Strip(p) != []
    ensures ReplyShaped(r)
  {
    var low := LowerStr(Strip(p));
    if |low| <= MaxReplyKeyword then low else low[..MaxReplyKeyword]
  }

  /** Every piece is empty once stripped. */
  predicate AllBlank(pieces: seq<string>) {
    pieces == [] || (Strip(pieces[0]) == [] && AllBlank(pieces[1..]))
  }

  /** [CleanPiece(p) for p in pieces if p.strip()] */
  function CleanPieces(pieces: seq<string>): (r: seq<string>)
    ensures |r| <= |pieces|
    ensures forall k :: 0 <= k < |r| ==> ReplyShaped(r[k])
    ensures r == [] <==> AllBlank(pieces)
  {
    if pieces == [] then []
    else
      var rest := CleanPieces(pieces[1..]);
      if Strip(pieces[0]) != [] then [CleanPiece(pieces[0])] + rest else rest
  }

  /** The cleaned keywords are exactly the cleaned non-blank pieces. */
  lemma {:induction false} CleanPiecesMembers(pieces: seq<string>)
    ensures forall w :: w in CleanPieces(pieces) <==> exists p :: p in pieces && Strip(p) != [] && w == CleanPiece(p)
  {
    if pieces != [] {
      var head, tail := pieces[0], pieces[1..];
      CleanPiecesMembers(tail);
      assert pieces == [head] + tail;
      var front := if Strip(head) != [] then [CleanPiece(head)] else [];
      assert CleanPieces(pieces) == front + CleanPieces(tail);
      forall w ensures w in CleanPieces(pieces) <==> exists p :: p in pieces && Strip(p) != [] && w == CleanPiece(p) {
        if w in front {
          assert head in pieces && Strip(head) != [] && w == CleanPiece(head);
        } else if w in CleanPieces(tail) {
          var p :| p in tail && Strip(p) != [] && w == CleanPiece(p);
          assert p in pieces;
        } else {
          assert forall p :: p in pieces ==> p == head || p in tail;
        }
      }
    }
  }

  /** Cleaning keeps the order of the pieces: it cleans a concatenation piecewise. */
  lemma {:induction false} CleanPiecesAppend(a: seq<string>, b: seq<string>)
    ensures CleanPieces(a + b) == CleanPieces(a) + CleanPieces(b)
    decreases |a|
  {
    if a != [] {
      assert (a + b)[0] == a[0] && (a + b)[1..] == a[1..] + b;
      CleanPiecesAppend(a[1..], b);
    } else {
      assert a + b == b;
    }
  }

  /** The keywords taken from a model reply: its comma-separated pieces, cleaned,
      the blank ones dropped, at most eight kept; none when every piece is blank. */
  function ReplyKeywords(text: string): (r: seq<string>)
    ensures |r| <= MaxKeywords
    ensures forall k :: 0 <= k < |r| ==> ReplyShaped(r[k])
    ensures r == [] <==> AllBlank(SplitOn(Strip(text), ','))
    ensures var parts := CleanPieces(SplitOn(Strip(text), ','));
      |r| == (if |parts| <= MaxKeywords then |parts| else MaxKeywords) && r == parts[..|r|]
  {
    var parts := CleanPieces(SplitOn(Strip(text), ','));
    FirstEight(parts)
  }

  /** parts[:8] */
  function FirstEight(parts: seq<string>): (r: seq<string>)
    ensures |r| <= MaxKeywords && |r| <= |parts| && (r == [] <==> parts == [])
    ensures |parts| <= MaxKeywords ==> |r| == |parts|
    ensures |parts| > MaxKeywords ==> |r| == MaxKeywords
    ensures forall k :: 0 <= k < |r| ==> r[k] == parts[k]
  {
    if |parts| <= MaxKeywords then parts else parts[..MaxKeywords]
  }

  /** What answered the keyword request: no configured client, a reply text, or a
      failed call. */
  datatype Backend = NoClient | Replied(text: string) | Failed

  /** extract_keywords */
  function ExtractKeywords(query: Option<string>, backend: Backend): (r: seq<string>)
    ensures |r| <= MaxKeywords
    ensures query.None? || AllSpace(query.value) ==> r == []
    ensures query.Some? && !AllSpace(query.value) && (backend.NoClient? || backend.Failed?) ==>
      r == FallbackKeywords(Strip(query.value))
    ensures query.Some? && !AllSpace(query.value) && backend.Replied? ==>
      r == (if ReplyKeywords(backend.text) != [] then ReplyKeywords(backend.text) else FallbackKeywords(Strip(query.value)))
  {
    var raw := if query.None? then "" else query.value;
    StripEmptyIff(raw);
    var nq := Strip(raw);
    if nq == [] then []
    else
      match backend
      case NoClient => FallbackKeywords(nq)
      case Failed => FallbackKeywords(nq)
      case Replied(text) =>
        var parts := ReplyKeywords(text);
        if parts != [] then parts else FallbackKeywords(nq)
  }

  /** With no client the answer is always a rule-based one: every keyword is allowed
      by the fallback rules for the stripped query, and none repeats. */
  lemma NoClientUsesRules(query: string, w: string)
    requires !AllSpace(query)
    ensures NoDuplicates(ExtractKeywords(Some(query), NoClient))
    ensures w in ExtractKeywords(Some(query), NoClient) ==> Candidate(Strip(query), w)
  {
  }
}
