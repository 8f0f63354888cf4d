/** Part ids PREFIX-MIDDLE-SUFFIX: recognising them in a read, and repairing a read by
    snapping its prefix, or the whole id, to the nearest known one. */
module PartIds {
  import opened Common
  import opened EditDistance

  datatype Parts = Parts(prefix: string, middle: string, suffix: string)

  predicate IsLetter(c: char) { 'A' <= c <= 'Z' }

  predicate IsSpace(c: char) { c == ' ' || '\t' <= c <= '\r' || 0x1c <= c as int <= 0x1f }

  ghost predicate AllLetters(s: string) { forall i :: 0 <= i < |s| ==> IsLetter(s[i]) }

  ghost predicate AllDigits(s: string) { forall i :: 0 <= i < |s| ==> IsDigit(s[i]) }

  predicate LettersAt(s: string, from: nat, to: nat) {
    to <= |s| && forall i :: from <= i < to ==> IsLetter(s[i])
  }

  predicate DigitsAt(s: string, from: nat, to: nat) {
    to <= |s| && forall i :: from <= i < to ==> IsDigit(s[i])
  }

  function Upper(c: char): char {
    if 'a' <= c <= 'z' then c - 'a' + 'A' else c
  }

  /** In upper case and without spaces. */
  function Normalised(s: string): string {
    if s == [] then []
    else Normalised(s[..|s| - 1]) + (if s[|s| - 1] == ' ' then [] else [Upper(s[|s| - 1])])
  }

  /** Where the next field starts: past one optional separator. */
  function SkipSeparator(s: string, i: nat): nat {
    if i < |s| && (s[i] == '-' || IsSpace(s[i])) then i + 1 else i
  }

  /** The pattern at position `i` with a prefix of exactly `k` letters. A separator is
      never a digit, so giving one back can never make a failed match succeed. */
  function MatchWith(s: string, i: nat, k: nat): Option<Parts> {
    if !LettersAt(s, i, i + k) then None
    else
      var m := SkipSeparator(s, i + k);
      if !DigitsAt(s, m, m + 5) then None
      else
        var t := SkipSeparator(s, m + 5);
        if !DigitsAt(s, t, t + 3) then None
        else Some(Parts(s[i..i + k], s[m..m + 5], s[t..t + 3]))
  }

  /** Leftmost match; at one position the longest prefix is tried first. */
  function SearchFrom(s: string, i: nat): Option<Parts>
    requires i <= |s|
    decreases |s| - i
  {
    if MatchWith(s, i, 4).Some? then MatchWith(s, i, 4)
    else if MatchWith(s, i, 3).Some? then MatchWith(s, i, 3)
    else if MatchWith(s, i, 2).Some? then MatchWith(s, i, 2)
    else if i == |s| then None
    else SearchFrom(s, i + 1)
  }

  function ParsePart(part: string): Option<Parts> {
    SearchFrom(Normalised(part), 0)
  }

  function Print(p: Parts): string {
    p.prefix + "-" + p.middle + "-" + p.suffix
  }

  ghost predicate WellFormed(p: Parts) {
    && 2 <= |p.prefix| <= 4 && AllLetters(p.prefix)
    && |p.middle| == 5 && AllDigits(p.middle)
    && |p.suffix| == 3 && AllDigits(p.suffix)
  }

  lemma {:induction false} NormalisedUnchanged(s: string)
    requires forall i :: 0 <= i < |s| ==> s[i] != ' ' && !('a' <= s[i] <= 'z')
    ensures Normalised(s) == s
  {
    if s != [] {
      NormalisedUnchanged(s[..|s| - 1]);
      assert s == s[..|s| - 1] + [s[|s| - 1]];
    }
  }

  lemma {:induction false} SearchWellFormed(s: string, i: nat)
    requires i <= |s|
    ensures SearchFrom(s, i).Some? ==> WellFormed(SearchFrom(s, i).value)
    decreases |s| - i
  {
    MatchWellFormed(s, i, 4);
    MatchWellFormed(s, i, 3);
    MatchWellFormed(s, i, 2);
    hide MatchWith, WellFormed;
    if i < |s| {
      SearchWellFormed(s, i + 1);
    }
  }

  lemma MatchWellFormed(s: string, i: nat, k: nat)
    requires 2 <= k <= 4
    ensures MatchWith(s, i, k).Some? ==> WellFormed(MatchWith(s, i, k).value)
  {
  }

  /** What is recognised is a part id, and printing a part id and reading it back gives
      the same fields. */
  lemma ParsePrint(p: Parts)
    requires WellFormed(p)
    ensures ParsePart(Print(p)) == Some(p)
  {
    hide MatchWith, Normalised, Print;
    var s, k := Print(p), |p.prefix|;
    PrintedFields(p);
    NormalisedUnchanged(s);
    FieldsMatch(s, p);
    NoLetterNoMatch(s, 0, 4, k);
    NoLetterNoMatch(s, 0, 3, k);
  }

  lemma PrintedFields(p: Parts)
    requires WellFormed(p)
    ensures var s, k := Print(p), |p.prefix|;
      && |s| == k + 10 && s[k] == '-' && s[k + 6] == '-'
      && s[..k] == p.prefix && s[k + 1..k + 6] == p.middle && s[k + 7..k + 10] == p.suffix
      && forall i :: 0 <= i < |s| ==> s[i] != ' ' && !('a' <= s[i] <= 'z')
  {
  }

  lemma FieldsMatch(s: string, p: Parts)
    requires WellFormed(p) && |s| == |p.prefix| + 10
    requires var k := |p.prefix|;
      && s[k] == '-' && s[k + 6] == '-'
      && s[..k] == p.prefix && s[k + 1..k + 6] == p.middle && s[k + 7..k + 10] == p.suffix
    ensures MatchWith(s, 0, |p.prefix|) == Some(p)
  {
    var k := |p.prefix|;
    assert forall i :: 0 <= i < k ==> s[i] == p.prefix[i];
    assert forall i :: k + 1 <= i < k + 6 ==> s[i] == p.middle[i - k - 1];
    assert forall i :: k + 7 <= i < k + 10 ==> s[i] == p.suffix[i - k - 7];
    assert LettersAt(s, 0, k) && DigitsAt(s, k + 1, k + 6) && DigitsAt(s, k + 7, k + 10);
    assert SkipSeparator(s, k) == k + 1 && SkipSeparator(s, k + 6) == k + 7;
  }

  lemma NoLetterNoMatch(s: string, i: nat, k: nat, at: nat)
    requires i <= at < |s| && !IsLetter(s[at])
    ensures at < i + k ==> MatchWith(s, i, k).None?
  {
  }

  lemma ParseWellFormed(part: string)
    ensures ParsePart(part).Some? ==> WellFormed(ParsePart(part).value)
  {
    SearchWellFormed(Normalised(part), 0);
  }

  /** Nothing, a hyphen or one white-space character. */
  ghost predicate Separates(sep: string) {
    sep == "" || (|sep| == 1 && (sep[0] == '-' || IsSpace(sep[0])))
  }

  /** The text has the part id at position `i`, its fields joined by separators. */
  ghost predicate Spelled(s: string, i: nat, p: Parts) {
    && WellFormed(p)
    && exists a, b :: Separates(a) && Separates(b) && StandsAt(s, i, p.prefix + a + p.middle + b + p.suffix)
  }

  ghost predicate StandsAt(s: string, i: nat, text: string) {
    i + |text| <= |s| && s[i..i + |text|] == text
  }

  lemma MatchIsSpelled(s: string, i: nat, k: nat)
    requires 2 <= k <= 4 && MatchWith(s, i, k).Some?
    ensures Spelled(s, i, MatchWith(s, i, k).value) && |MatchWith(s, i, k).value.prefix| == k
  {
    MatchWellFormed(s, i, k);
    var p := MatchWith(s, i, k).value;
    var m := SkipSeparator(s, i + k);
    var t := SkipSeparator(s, m + 5);
    var a, b := s[i + k..m], s[m + 5..t];
    assert s[i..t + 3] == p.prefix + a + p.middle + b + p.suffix;
    assert StandsAt(s, i, p.prefix + a + p.middle + b + p.suffix);
    assert Separates(a) && Separates(b);
  }

  lemma SpelledMatches(s: string, i: nat, p: Parts)
    requires Spelled(s, i, p)
    ensures MatchWith(s, i, |p.prefix|) == Some(p)
  {
    var a, b :| Separates(a) && Separates(b) && StandsAt(s, i, p.prefix + a + p.middle + b + p.suffix);
    SpelledWith(s, i, p, a, b);
  }

  lemma SpelledWith(s: string, i: nat, p: Parts, a: string, b: string)
    requires WellFormed(p) && Separates(a) && Separates(b) && StandsAt(s, i, p.prefix + a + p.middle + b + p.suffix)
    ensures MatchWith(s, i, |p.prefix|) == Some(p)
  {
    var x, y, z, u := p.prefix, p.prefix + a, p.prefix + a + p.middle, p.prefix + a + p.middle + b;
    var at := i + |y|;
    StandsApart(s, i, u, p.suffix);
    StandsApart(s, i, z, b);
    StandsApart(s, i, y, p.middle);
    StandsApart(s, i, x, a);
    FieldsStand(s, i, p, a, b);
  }

  lemma StandsApart(s: string, i: nat, a: string, b: string)
    requires StandsAt(s, i, a + b)
    ensures StandsAt(s, i, a) && StandsAt(s, i + |a|, b)
  {
    assert s[i..i + |a|] == s[i..i + |a + b|][..|a|] == a;
    assert s[i + |a|..i + |a| + |b|] == s[i..i + |a + b|][|a|..] == b;
  }

  lemma FieldsStand(s: string, i: nat, p: Parts, a: string, b: string)
    requires WellFormed(p) && Separates(a) && Separates(b) && StandsAt(s, i, p.prefix)
    requires var j := i + |p.prefix|;
      && StandsAt(s, j, a) && StandsAt(s, j + |a|, p.middle)
      && StandsAt(s, j + |a| + 5, b) && StandsAt(s, j + |a| + 5 + |b|, p.suffix)
    ensures MatchWith(s, i, |p.prefix|) == Some(p)
  {
    hide MatchWith, SkipSeparator;
    var k := |p.prefix|;
    var m := i + k + |a|;
    var t := m + 5 + |b|;
    assert forall j :: i <= j < i + k ==> s[j] == p.prefix[j - i];
    assert forall j :: m <= j < m + 5 ==> s[j] == p.middle[j - m];
    assert forall j :: t <= j < t + 3 ==> s[j] == p.suffix[j - t];
    SeparatorSkipped(s, i + k, a);
    SeparatorSkipped(s, m + 5, b);
    MatchAt(s, i, k, m, t);
  }

  lemma SeparatorSkipped(s: string, i: nat, sep: string)
    requires Separates(sep) && StandsAt(s, i, sep) && i + |sep| < |s| && IsDigit(s[i + |sep|])
    ensures SkipSeparator(s, i) == i + |sep|
  {
    assert |sep| == 1 ==> s[i..i + 1][0] == sep[0];
  }

  lemma MatchAt(s: string, i: nat, k: nat, m: nat, t: nat)
    requires LettersAt(s, i, i + k) && DigitsAt(s, m, m + 5) && DigitsAt(s, t, t + 3)
    requires SkipSeparator(s, i + k) == m && SkipSeparator(s, m + 5) == t
    ensures i + k <= |s| && MatchWith(s, i, k) == Some(Parts(s[i..i + k], s[m..m + 5], s[t..t + 3]))
  {
  }

  /** Nothing is spelled at any position before `i`. */
  ghost predicate NoneBefore(s: string, i: nat) {
    forall j: nat, q :: j < i ==> !Spelled(s, j, q)
  }

  /** What a search of the whole text should find: the first part id spelled in it, if any. */
  ghost predicate Recognised(s: string, r: Option<Parts>) {
    match r
    case None => forall j: nat, q :: !Spelled(s, j, q)
    case Some(p) => exists j: nat :: FirstSpelled(s, j, p)
  }

  lemma {:induction false} SearchFinds(s: string, i: nat)
    requires i <= |s| && NoneBefore(s, i)
    ensures Recognised(s, SearchFrom(s, i))
    decreases |s| - i
  {
    hide MatchWith, Spelled;
    MatchesAt(s, i);
    if MatchWith(s, i, 4).Some? || MatchWith(s, i, 3).Some? || MatchWith(s, i, 2).Some? {
      assert FirstSpelled(s, i, SearchFrom(s, i).value);
    } else if i < |s| {
      SearchFinds(s, i + 1);
    } else {
      forall j: nat, q ensures !Spelled(s, j, q) {
        if Spelled(s, j, q) {
          SpelledInside(s, j, q);
        }
      }
    }
  }

  /** The part id is spelled at `j`, nothing is spelled before, and nothing with a longer prefix there. */
  ghost predicate FirstSpelled(s: string, j: nat, p: Parts) {
    Spelled(s, j, p) && NoneBefore(s, j) && forall q :: Spelled(s, j, q) ==> |q.prefix| < |p.prefix| || q == p
  }

  lemma MatchesAt(s: string, i: nat)
    ensures forall p :: Spelled(s, i, p) ==> 2 <= |p.prefix| <= 4 && MatchWith(s, i, |p.prefix|) == Some(p)
    ensures forall k :: 2 <= k <= 4 && MatchWith(s, i, k).Some? ==>
              Spelled(s, i, MatchWith(s, i, k).value) && |MatchWith(s, i, k).value.prefix| == k
  {
    hide MatchWith;
    forall p | Spelled(s, i, p) ensures 2 <= |p.prefix| <= 4 && MatchWith(s, i, |p.prefix|) == Some(p) {
      SpelledMatches(s, i, p);
    }
    forall k | 2 <= k <= 4 && MatchWith(s, i, k).Some?
      ensures Spelled(s, i, MatchWith(s, i, k).value) && |MatchWith(s, i, k).value.prefix| == k
    {
      MatchIsSpelled(s, i, k);
    }
  }

  /** A text is recognised exactly when a part id is spelled in it, spaces and case aside, and
      then as the first one, with as long a prefix as can be. */
  lemma ParsedExactlyWhen(part: string)
    ensures Recognised(Normalised(part), ParsePart(part))
  {
    SearchFinds(Normalised(part), 0);
  }

  lemma SpelledInside(s: string, j: nat, q: Parts)
    requires Spelled(s, j, q)
    ensures j < |s|
  {
  }

  /** A space anywhere in the text, and the case of a letter, make no difference. */
  lemma SpacesAndCaseIgnored(a: string, b: string, lower: char)
    requires 'a' <= lower <= 'z'
    ensures ParsePart(a + " " + b) == ParsePart(a + b)
    ensures ParsePart(a + [lower] + b) == ParsePart(a + [lower - 'a' + 'A'] + b)
  {
    hide SearchFrom;
    var upper := lower - 'a' + 'A';
    NormalisedMiddle(a, ' ', b);
    assert a + " " + b == a + [' '] + b && Normalised(a) + [] == Normalised(a);
    NormalisedJoins(a, b);
    NormalisedMiddle(a, lower, b);
    NormalisedMiddle(a, upper, b);
    assert Upper(upper) == upper && upper != ' ';
  }

  lemma NormalisedMiddle(a: string, c: char, b: string)
    ensures Normalised(a + [c] + b) == Normalised(a) + (if c == ' ' then [] else [Upper(c)]) + Normalised(b)
  {
    NormalisedJoins(a + [c], b);
    NormalisedOne(a, c);
  }

  lemma NormalisedOne(s: string, c: char)
    ensures Normalised(s + [c]) == Normalised(s) + if c == ' ' then [] else [Upper(c)]
  {
    assert (s + [c])[..|s|] == s;
  }

  lemma {:induction false} NormalisedJoins(a: string, b: string)
    ensures Normalised(a + b) == Normalised(a) + Normalised(b)
  {
    if b == [] {
      assert a + b == a;
    } else {
      assert (a + b)[..|a + b| - 1] == a + b[..|b| - 1];
      NormalisedJoins(a, b[..|b| - 1]);
    }
  }

  // ---- nearest of a list ------------------------------------------------------------

  /** The first of the nearest entries. */
  ghost function Nearest(word: string, pool: seq<string>): string
    requires pool != []
  {
    if |pool| == 1 then pool[0]
    else
      var best := Nearest(word, pool[..|pool| - 1]);
      if Distance(word, pool[|pool| - 1]) < Distance(word, best) then pool[|pool| - 1] else best
  }

  method NearestOf(word: string, pool: seq<string>) returns (best: string)
    requires pool != []
    ensures best == Nearest(word, pool)
  {
    best := pool[0];
    var bestDistance := EditDist(word, best);
    for i := 1 to |pool|
      invariant best == Nearest(word, pool[..i]) && bestDistance == Distance(word, best)
    {
      assert pool[..i + 1][..i] == pool[..i];
      var d := EditDist(word, pool[i]);
      if d < bestDistance {
        best, bestDistance := pool[i], d;
      }
    }
    assert pool[..|pool|] == pool;
  }

  /** The choice is an entry of the pool and no entry is nearer. */
  lemma {:induction false} NearestIsNearest(word: string, pool: seq<string>)
    requires pool != []
    ensures Nearest(word, pool) in pool
    ensures forall k :: k in pool ==> Distance(word, Nearest(word, pool)) <= Distance(word, k)
  {
    if |pool| > 1 {
      var front := pool[..|pool| - 1];
      NearestIsNearest(word, front);
      assert pool == front + [pool[|pool| - 1]];
    }
  }

  /** Of the entries that are as near the first is chosen. */
  lemma {:induction false} NearestIsFirst(word: string, pool: seq<string>)
    requires pool != []
    ensures exists i :: 0 <= i < |pool| && pool[i] == Nearest(word, pool)
                        && forall j :: 0 <= j < i ==> Distance(word, pool[j]) > Distance(word, pool[i])
  {
    var n := |pool| - 1;
    if n == 0 {
      assert pool[0] == Nearest(word, pool);
    } else {
      var front := pool[..n];
      NearestIsFirst(word, front);
      NearestIsNearest(word, front);
      if Distance(word, pool[n]) < Distance(word, Nearest(word, front)) {
        assert forall j :: 0 <= j < n ==> pool[j] == front[j] && front[j] in front;
        assert pool[n] == Nearest(word, pool);
      } else {
        var i :| 0 <= i < n && front[i] == Nearest(word, front)
                 && forall j :: 0 <= j < i ==> Distance(word, front[j]) > Distance(word, front[i]);
        assert pool[i] == Nearest(word, pool);
        assert forall j :: 0 <= j < i ==> pool[j] == front[j];
      }
    }
  }

  /** A word that is in the pool is its own nearest entry. */
  lemma NearestOfMember(word: string, pool: seq<string>)
    requires word in pool
    ensures Nearest(word, pool) == word
  {
    NearestIsNearest(word, pool);
    Metric(word, word, word);
    Metric(word, Nearest(word, pool), word);
  }

  // ---- snapping ---------------------------------------------------------------------

  const KNOWN_PREFIXES: seq<string> := ["UNN", "MDDY"]

  ghost function NormalizePrefix(part: string): string {
    match ParsePart(part)
    case None => part
    case Some(p) => Print(p.(prefix := Nearest(p.prefix, KNOWN_PREFIXES)))
  }

  function SameMiddle(known: seq<string>, middle: string): seq<string> {
    if known == [] then []
    else
      var k := known[|known| - 1];
      SameMiddle(known[..|known| - 1], middle) +
      if ParsePart(k).Some? && ParsePart(k).value.middle == middle then [k] else []
  }

  ghost function SnapToCatalog(part: string, known: seq<string>): string {
    if known == [] then part
    else match ParsePart(part)
      case None => part
      case Some(p) =>
        var same := SameMiddle(known, p.middle);
        Nearest(part, if same != [] then same else known)
  }

  method NormalizePrefixOf(part: string) returns (r: string)
    ensures r == NormalizePrefix(part)
  {
    var parsed := ParsePart(part);
    if parsed.None? {
      return part;
    }
    var best := NearestOf(parsed.value.prefix, KNOWN_PREFIXES);
    r := Print(parsed.value.(prefix := best));
  }

  method SnapToCatalogOf(part: string, known: seq<string>) returns (r: string)
    ensures r == SnapToCatalog(part, known)
  {
    var parsed := ParsePart(part);
    if known == [] || parsed.None? {
      return part;
    }
    var same := SameMiddle(known, parsed.value.middle);
    r := NearestOf(part, if same != [] then same else known);
  }

  lemma {:induction false} SameMiddleMembers(known: seq<string>, middle: string)
    ensures forall k :: k in SameMiddle(known, middle) <==>
              k in known && ParsePart(k).Some? && ParsePart(k).value.middle == middle
  {
    if known != [] {
      SameMiddleMembers(known[..|known| - 1], middle);
      assert known == known[..|known| - 1] + [known[|known| - 1]];
    }
  }

  /** A read that is a part id becomes one with a known prefix, the nearest one, and the
      fields OCR reads reliably are untouched. */
  lemma NormalizeRepairsPrefix(part: string)
    requires ParsePart(part).Some?
    ensures ParsePart(NormalizePrefix(part)).Some?
    ensures var p, q := ParsePart(part).value, ParsePart(NormalizePrefix(part)).value;
      && q.prefix in KNOWN_PREFIXES && (q.prefix == "UNN" || q.prefix == "MDDY")
      && q.middle == p.middle && q.suffix == p.suffix
      && NormalizePrefix(part) == Print(q)
      && forall k :: k in KNOWN_PREFIXES ==> Distance(p.prefix, q.prefix) <= Distance(p.prefix, k)
  {
    ParseWellFormed(part);
    var p := ParsePart(part).value;
    NearestIsNearest(p.prefix, KNOWN_PREFIXES);
    ParsePrint(p.(prefix := Nearest(p.prefix, KNOWN_PREFIXES)));
  }

  /** Repairing a prefix twice is repairing it once, for every string. */
  lemma NormalizeIdempotent(part: string)
    ensures NormalizePrefix(NormalizePrefix(part)) == NormalizePrefix(part)
  {
    if ParsePart(part).Some? {
      NormalizeRepairsPrefix(part);
      NormalizeKnown(NormalizePrefix(part));
    }
  }

  /** A part id is canonical when it is printed from its own fields with a known prefix. */
  ghost predicate Canonical(part: string) {
    && ParsePart(part).Some?
    && ParsePart(part).value.prefix in KNOWN_PREFIXES
    && part == Print(ParsePart(part).value)
  }

  lemma NormalizeKnown(part: string)
    requires Canonical(part)
    ensures NormalizePrefix(part) == part
  {
    NearestOfMember(ParsePart(part).value.prefix, KNOWN_PREFIXES);
  }

  lemma HasMember(s: seq<string>)
    ensures s != [] ==> s[0] in s
  {
  }

  /** A snapped part id is in the catalogue; it shares the middle it was read with whenever
      the catalogue has such an entry, and no entry it was chosen from is nearer. */
  lemma SnapInCatalog(part: string, known: seq<string>)
    requires known != [] && ParsePart(part).Some?
    ensures SnapToCatalog(part, known) in known
    ensures var middle := ParsePart(part).value.middle;
      if exists k :: k in known && ParsePart(k).Some? && ParsePart(k).value.middle == middle
      then && ParsePart(SnapToCatalog(part, known)).Some?
           && ParsePart(SnapToCatalog(part, known)).value.middle == middle
           && forall k :: k in known && ParsePart(k).Some? && ParsePart(k).value.middle == middle
                ==> Distance(part, SnapToCatalog(part, known)) <= Distance(part, k)
      else forall k :: k in known ==> Distance(part, SnapToCatalog(part, known)) <= Distance(part, k)
  {
    var middle := ParsePart(part).value.middle;
    var same := SameMiddle(known, middle);
    SameMiddleMembers(known, middle);
    var pool := if same != [] then same else known;
    NearestIsNearest(part, pool);
    if k :| k in known && ParsePart(k).Some? && ParsePart(k).value.middle == middle {
      assert k in same;
    } else {
      HasMember(same);
    }
  }

  /** What is no part id is left as it was read, and without a catalogue every read is. */
  lemma TheRestIsLeft(part: string, known: seq<string>)
    ensures ParsePart(part).None? || known == [] ==> SnapToCatalog(part, known) == part
    ensures ParsePart(part).None? ==> NormalizePrefix(part) == part
  {
  }

  /** Snapping twice is snapping once, for every read and every catalogue. */
  lemma SnapIdempotent(part: string, known: seq<string>)
    ensures SnapToCatalog(SnapToCatalog(part, known), known) == SnapToCatalog(part, known)
  {
    if known != [] && ParsePart(part).Some? {
      SnapInCatalog(part, known);
      var r := SnapToCatalog(part, known);
      if ParsePart(r).Some? {
        var same := SameMiddle(known, ParsePart(r).value.middle);
        SameMiddleMembers(known, ParsePart(r).value.middle);
        assert r in same;
        NearestOfMember(r, same);
      }
    }
  }
}
