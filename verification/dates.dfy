/**
 The date step of `scrape_khutbah`: a regular-expression search for four
 digits, a hyphen, two digits, a hyphen and two digits in the date element's
 text, keeping the leftmost match, or the sentinel "1970-01-01" when nothing matches.
 */
module Dates {
  import opened Wrappers

  /** The "unknown date" sentinel. */
  const Epoch: string := "1970-01-01"

  /**
   Code points of the non-ASCII characters with digit value zero in Unicode
   general category Nd (decimal digit), from the Nd table of Unicode 15.0. Every
   non-ASCII Nd character is one of the ten consecutive code points starting at
   one of these.
   */
  const NdZeros: seq<int> :=
    [0x660, 0x6F0, 0x7C0, 0x966, 0x9E6, 0xA66, 0xAE6]
    + [0xB66, 0xBE6, 0xC66, 0xCE6, 0xD66, 0xDE6, 0xE50, 0xED0]
    + [0xF20, 0x1040, 0x1090, 0x17E0, 0x1810, 0x1946, 0x19D0, 0x1A80]
    + [0x1A90, 0x1B50, 0x1BB0, 0x1C40, 0x1C50, 0xA620, 0xA8D0, 0xA900]
    + [0xA9D0, 0xA9F0, 0xAA50, 0xABF0, 0xFF10, 0x104A0, 0x10D30, 0x11066]
    + [0x110F0, 0x11136, 0x111D0, 0x112F0, 0x11450, 0x114D0, 0x11650, 0x116C0]
    + [0x11730, 0x118E0, 0x11950, 0x11C50, 0x11D50, 0x11DA0, 0x11F50, 0x16A60]
    + [0x16AC0, 0x16B50, 0x1D7CE, 0x1D7D8, 0x1D7E2, 0x1D7EC, 0x1D7F6, 0x1E140]
    + [0x1E2F0, 0x1E4F0, 0x1E950, 0x1FBF0]

  /** `\d` of Python 3's `re` on `str` patterns: any Unicode decimal digit, ASCII '0'..'9' among them. */
  predicate IsDigit(c: char) {
    || ('0' <= c <= '9')
    || exists i :: 0 <= i < |NdZeros| && NdZeros[i] <= c as int < NdZeros[i] + 10
  }

  /** The Arabic-Indic digits U+0660..U+0669, the digits of Arabic-script pages, are `\d` digits. */
  lemma ArabicIndicDigit(c: char)
    requires '\U{660}' <= c <= '\U{669}'
    ensures IsDigit(c)
  {
    assert NdZeros[0] == 0x660;
  }

  /** The pattern `\d{4}-\d{2}-\d{2}` matches the ten characters of `s` starting at `i`. */
  predicate DateAt(s: string, i: nat) {
    && i + 10 <= |s|
    && IsDigit(s[i]) && IsDigit(s[i + 1]) && IsDigit(s[i + 2]) && IsDigit(s[i + 3])
    && s[i + 4] == '-'
    && IsDigit(s[i + 5]) && IsDigit(s[i + 6])
    && s[i + 7] == '-'
    && IsDigit(s[i + 8]) && IsDigit(s[i + 9])
  }

  /** A whole string of the form DDDD-DD-DD. */
  predicate IsDateShape(d: string) {
    |d| == 10 && DateAt(d, 0)
  }

  /** `k` is the position where `re.search` finds its match: a match, with none further left. */
  predicate IsLeftmostDate(s: string, k: nat) {
    DateAt(s, k) && forall j: nat :: j < k ==> !DateAt(s, j)
  }

  /** The first match position at or after `from`, scanning left to right. */
  function FindDate(s: string, from: nat): (r: Option<nat>)
    requires from <= |s|
    ensures r.Some? ==> from <= r.value && DateAt(s, r.value)
    ensures r.Some? ==> forall j: nat :: from <= j < r.value ==> !DateAt(s, j)
    ensures r.None? ==> forall j: nat :: from <= j ==> !DateAt(s, j)
    decreases |s| - from
  {
    if from + 10 > |s| then None
    else if DateAt(s, from) then Some(from)
    else FindDate(s, from + 1)
  }

  /** Ten characters copied out of a match form a whole date. */
  lemma MatchIsDate(s: string, k: nat)
    requires DateAt(s, k)
    ensures IsDateShape(s[k..k + 10])
  {
    var d := s[k..k + 10];
    assert forall i :: 0 <= i < 10 ==> d[i] == s[k + i];
  }

  /** The sentinel itself has the shape of a date. */
  lemma EpochIsDate()
    ensures IsDateShape(Epoch)
  {
  }

  /** The extracted date: the leftmost DDDD-DD-DD substring, or the sentinel. */
  function ExtractDate(s: string): (r: string)
    ensures IsDateShape(r)
    ensures (forall j: nat :: !DateAt(s, j)) ==> r == Epoch
    ensures (exists k: nat :: DateAt(s, k)) ==> exists k: nat :: IsLeftmostDate(s, k) && r == s[k..k + 10]
  {
    match FindDate(s, 0)
    case Some(k) =>
      assert IsLeftmostDate(s, k);
      MatchIsDate(s, k);
      s[k..k + 10]
    case None =>
      EpochIsDate();
      Epoch
  }

  /** At most one position is the leftmost match. */
  lemma LeftmostUnique(s: string, k: nat, k': nat)
    requires IsLeftmostDate(s, k) && IsLeftmostDate(s, k')
    ensures k == k'
  {
  }

  /** Whenever a leftmost match exists, the extracted date is exactly its ten characters. */
  lemma ExtractAtLeftmost(s: string, k: nat)
    requires IsLeftmostDate(s, k)
    ensures ExtractDate(s) == s[k..k + 10]
  {
    var r := ExtractDate(s);
    var k': nat :| IsLeftmostDate(s, k') && r == s[k'..k' + 10];
    LeftmostUnique(s, k, k');
  }

  /** A date text reading "Sermon delivered 2024-03-15 at Masjid X" yields "2024-03-15". */
  lemma DateInSentence(s: string)
    requires s == "Sermon delivered 2024-03-15 at Masjid X"
    ensures ExtractDate(s) == "2024-03-15"
  {
    assert forall i :: 0 <= i < 21 ==> s[i] != '-';
    assert IsLeftmostDate(s, 17);
    ExtractAtLeftmost(s, 17);
    SentenceSlice(s);
  }

  lemma SentenceSlice(s: string)
    requires s == "Sermon delivered 2024-03-15 at Masjid X"
    ensures s[17..27] == "2024-03-15"
  {
    var pre, date, post := "Sermon delivered ", "2024-03-15", " at Masjid X";
    assert s == pre + date + post;
    assert |pre| == 17;
    assert (pre + date + post)[17..27] == date;
  }

  /** Any date text with no DDDD-DD-DD substring yields the sentinel. */
  lemma NoDateGivesEpoch(s: string)
    requires forall j: nat :: !DateAt(s, j)
    ensures ExtractDate(s) == Epoch
  {
  }

  /** A date written in Arabic-Indic digits, "٢٠٢٤-٠٣-١٥", is extracted as it stands. */
  lemma ArabicIndicDate(s: string)
    requires s == "\U{662}\U{660}\U{662}\U{664}-\U{660}\U{663}-\U{661}\U{665}"
    ensures ExtractDate(s) == s
  {
    ArabicIndicDigit(s[0]); ArabicIndicDigit(s[1]); ArabicIndicDigit(s[2]); ArabicIndicDigit(s[3]);
    ArabicIndicDigit(s[5]); ArabicIndicDigit(s[6]); ArabicIndicDigit(s[8]); ArabicIndicDigit(s[9]);
    assert IsLeftmostDate(s, 0);
    ExtractAtLeftmost(s, 0);
    assert s[0..10] == s;
  }
}
