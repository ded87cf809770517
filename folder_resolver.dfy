/**
 * Folder resolution in dags/rpps_dag.py: every folder link on the
 * "Carteira" page is searched for the first "Atualizado_ate_DD_MM_YYYY"
 * token, labels whose token is a real calendar date are kept, and the one
 * that sorts last by date is opened; no kept label raises
 * "Nenhuma pasta encontrada".
 */
module FolderResolver {
  import opened Wrappers
  import opened Text

  // ----------------------------------------------------------------- dates

  /** A datetime(year, month, day) before validation. */
  datatype Date = Date(year: int, month: int, day: int)

  const MinYear := 1
  const MaxYear := 9999
  const DaysPerMonth: seq<int> := [31, 28, 31, 30, 31, 30, 31, 31, 30, 31, 30, 31]

  /** Proleptic Gregorian leap years. */
  predicate IsLeapYear(year: int) {
    year % 4 == 0 && (year % 100 != 0 || year % 400 == 0)
  }

  function DaysInMonth(year: int, month: int): (n: int)
    requires 1 <= month <= 12
    ensures 28 <= n <= 31
    ensures month == 2 ==> (n == 29 <==> IsLeapYear(year)) && (n == 28 <==> !IsLeapYear(year))
    ensures month != 2 ==> n == (if month in {4, 6, 9, 11} then 30 else 31)
  {
    if month == 2 && IsLeapYear(year) then 29 else DaysPerMonth[month - 1]
  }

  /** The checks datetime(year, month, day) makes before it raises ValueError. */
  predicate ValidDate(d: Date) {
    && MinYear <= d.year <= MaxYear
    && 1 <= d.month <= 12
    && 1 <= d.day <= DaysInMonth(d.year, d.month)
  }

  /** datetime ordering: by year, then month, then day. */
  predicate DateLe(a: Date, b: Date) {
    || a.year < b.year
    || (a.year == b.year && a.month < b.month)
    || (a.year == b.year && a.month == b.month && a.day <= b.day)
  }

  predicate DateLt(a: Date, b: Date) {
    !DateLe(b, a)
  }

  // ------------------------------------------------------- the label token

  /** The literal part of Atualizado_ate_(\d{2})_(\d{2})_(\d{4}). */
  const Marker := "Atualizado_ate_"
  /** Every match of the pattern is exactly this long. */
  const TokenLength := 25

  /** The pattern matches s at offset i (the pattern has a fixed length, so a match is a fixed window). */
  predicate MatchesAt(s: string, i: nat) {
    && i + TokenLength <= |s|
    && s[i..i + 15] == Marker
    && AllDigits(s[i + 15..i + 17]) && s[i + 17] == '_'
    && AllDigits(s[i + 18..i + 20]) && s[i + 20] == '_'
    && AllDigits(s[i + 21..i + 25])
  }

  /** i is the leftmost offset where the pattern matches s. */
  predicate FirstMatchAt(s: string, i: nat) {
    MatchesAt(s, i) && forall j :: 0 <= j < i ==> !MatchesAt(s, j)
  }

  /** re.search from offset `from`: the leftmost offset where the pattern matches. */
  function FindMatch(s: string, from: nat): (r: Option<nat>)
    ensures r.Some? ==> from <= r.value && MatchesAt(s, r.value)
    ensures r.Some? ==> forall j :: from <= j < r.value ==> !MatchesAt(s, j)
    ensures r.None? ==> forall j: nat :: from <= j ==> !MatchesAt(s, j)
    decreases |s| - from
  {
    if from + TokenLength > |s| then None
    else if MatchesAt(s, from) then Some(from)
    else FindMatch(s, from + 1)
  }

  /** Searching from the start finds the leftmost match, wherever it is. */
  lemma FindMatchIsFirst(s: string)
    ensures forall i: nat :: FirstMatchAt(s, i) ==> FindMatch(s, 0) == Some(i)
  {
    forall i: nat | FirstMatchAt(s, i) ensures FindMatch(s, 0) == Some(i) {
      assert FindMatch(s, 0).Some?;
    }
  }

  /** datetime(int(ano), int(mes), int(dia)) on the three groups of the match at i. */
  function ExtractDate(s: string, i: nat): Date
    requires MatchesAt(s, i)
  {
    Date(DecimalValue(s[i + 21..i + 25]), DecimalValue(s[i + 18..i + 20]), DecimalValue(s[i + 15..i + 17]))
  }

  /** The date a folder label carries: its first token, kept only if it is a valid date. */
  function LabelDate(text: string): Option<Date> {
    var s := Strip(text);
    match FindMatch(s, 0)
    case None => None
    case Some(i) => if ValidDate(ExtractDate(s, i)) then Some(ExtractDate(s, i)) else None
  }

  /** The label a folder dated d would have on the portal. */
  function FolderLabel(d: Date): string
    requires 0 <= d.year && 0 <= d.month && 0 <= d.day
  {
    Marker + Render(d.day, 2) + "_" + Render(d.month, 2) + "_" + Render(d.year, 4)
  }

  /**
   * Whatever follows the first token, trailing whitespace included, the
   * token alone decides the label's date: a valid date is read back
   * exactly, an invalid one rejects the label even when a valid token
   * comes later.
   */
  lemma FirstTokenDecides(d: Date, rest: string)
    requires 0 <= d.year < 10000 && 0 <= d.month < 100 && 0 <= d.day < 100
    ensures LabelDate(FolderLabel(d) + rest) == if ValidDate(d) then Some(d) else None
  {
    var s := FolderLabel(d) + rest;
    TokenAtStart(d, rest);
    TokenSurvivesStrip(s);
  }

  /** The rendered token, whatever follows it, matches at offset 0 and reads back as d. */
  lemma TokenAtStart(d: Date, rest: string)
    requires 0 <= d.year < 10000 && 0 <= d.month < 100 && 0 <= d.day < 100
    ensures var s := FolderLabel(d) + rest; MatchesAt(s, 0) && ExtractDate(s, 0) == d
  {
    var t := FolderLabel(d);
    var s := t + rest;
    assert |t| == TokenLength;
    assert s[..15] == Marker;
    assert s[15..17] == Render(d.day, 2);
    assert s[18..20] == Render(d.month, 2);
    assert s[21..25] == Render(d.year, 4);
    DecimalValueOfRender(d.day, 2);
    DecimalValueOfRender(d.month, 2);
    DecimalValueOfRender(d.year, 4);
  }

  /** strip() leaves a token at offset 0 in place: it starts with a letter and ends with a digit. */
  lemma TokenSurvivesStrip(s: string)
    requires MatchesAt(s, 0)
    ensures MatchesAt(Strip(s), 0) && ExtractDate(Strip(s), 0) == ExtractDate(s, 0)
  {
    var r := Strip(s);
    assert s[0] == s[..15][0] == 'A';
    assert LeadingSpaces(s) == 0;
    assert IsDigit(s[21..25][3]);
    assert s[24] == s[21..25][3];
    assert !IsSpace(s[24]);
    assert |r| >= TokenLength;
    assert r == s[..|r|];
    assert r[..15] == s[..15];
    assert r[15..17] == s[15..17] && r[18..20] == s[18..20] && r[21..25] == s[21..25];
  }

  lemma LabelRoundTrip(d: Date)
    requires 0 <= d.year < 10000 && 0 <= d.month < 100 && 0 <= d.day < 100
    ensures LabelDate(FolderLabel(d)) == if ValidDate(d) then Some(d) else None
  {
    FirstTokenDecides(d, []);
    assert FolderLabel(d) + [] == FolderLabel(d);
  }

  // ------------------------------------------------------------ candidates

  /** A folder link: its visible text and its href. */
  datatype Candidate = Candidate(text: string, href: string)

  /** An entry of pastas_com_data: (data, p.text.strip(), href). */
  datatype Folder = Folder(date: Date, text: string, href: string)

  /** The entry a link contributes to pastas_com_data, if any. */
  function Accept(c: Candidate): (r: Option<Folder>)
    ensures r.Some? <==> LabelDate(c.text).Some?
    ensures r.Some? ==> r.value == Folder(LabelDate(c.text).value, Strip(c.text), c.href)
  {
    match LabelDate(c.text)
    case None => None
    case Some(d) => Some(Folder(d, Strip(c.text), c.href))
  }

  /**
   * A link is kept exactly when the leftmost token of its stripped text is
   * a valid date; the kept entry carries that date, the stripped text and
   * the href.
   */
  lemma AcceptKeepsFirstValidToken(c: Candidate)
    ensures var t := Strip(c.text); var r := Accept(c);
      r.Some? ==> && r.value.text == t && r.value.href == c.href && ValidDate(r.value.date)
                  && exists i: nat :: FirstMatchAt(t, i) && ExtractDate(t, i) == r.value.date
    ensures var t := Strip(c.text);
      Accept(c).None? ==> forall i: nat :: FirstMatchAt(t, i) ==> !ValidDate(ExtractDate(t, i))
  {
    FindMatchIsFirst(Strip(c.text));
  }

  /** What each link contributes, in page order. */
  function Scan(cs: seq<Candidate>): (os: seq<Option<Folder>>)
    ensures |os| == |cs| && forall i :: 0 <= i < |cs| ==> os[i] == Accept(cs[i])
  {
    if cs == [] then [] else [Accept(cs[0])] + Scan(cs[1..])
  }

  /** The folders of the entries that are present, in order. */
  function Present(os: seq<Option<Folder>>): (fs: seq<Folder>)
    ensures |fs| <= |os|
  {
    if os == [] then []
    else
      var init := Present(os[..|os| - 1]);
      match os[|os| - 1]
      case None => init
      case Some(f) => init + [f]
  }

  lemma {:induction false} PresentMembers(os: seq<Option<Folder>>, f: Folder)
    ensures f in Present(os) <==> Some(f) in os
  {
    if os != [] {
      var init := os[..|os| - 1];
      PresentMembers(init, f);
      assert os == init + [os[|os| - 1]];
    }
  }

  lemma PresentPrefix(os: seq<Option<Folder>>, i: nat)
    requires i < |os|
    ensures Present(os[..i + 1]) == Present(os[..i]) + if os[i].Some? then [os[i].value] else []
  {
    assert os[..i + 1][..i] == os[..i];
  }

  /** pastas_com_data after the loop over the links. */
  function DatedFolders(cs: seq<Candidate>): seq<Folder> {
    Present(Scan(cs))
  }

  /** sorted(pastas_com_data, key=date)[-1], computed as a left fold: a later entry replaces an earlier one unless it is strictly older. */
  function LatestIndex(fs: seq<Folder>): (k: nat)
    requires fs != []
    ensures k < |fs|
    ensures forall i :: 0 <= i < |fs| ==> DateLe(fs[i].date, fs[k].date)
    ensures forall i :: k < i < |fs| ==> DateLt(fs[i].date, fs[k].date)
  {
    if |fs| == 1 then 0
    else
      var k := LatestIndex(fs[..|fs| - 1]);
      if DateLe(fs[k].date, fs[|fs| - 1].date) then |fs| - 1 else k
  }

  datatype ResolveError = NoFolderFound  // raise Exception("Nenhuma pasta encontrada")

  /** The latest present entry, or NoFolderFound when there is none. */
  function Select(os: seq<Option<Folder>>): Result<Folder, ResolveError> {
    var fs := Present(os);
    if fs == [] then Failure(NoFolderFound) else Success(fs[LatestIndex(fs)])
  }

  function Resolve(cs: seq<Candidate>): Result<Folder, ResolveError> {
    Select(Scan(cs))
  }

  /** The loop of rpps_dag.py over the folder links, then the selection. */
  method ResolveFolder(pastas: seq<Candidate>) returns (r: Result<Folder, ResolveError>)
    ensures r == Resolve(pastas)
  {
    var comData: seq<Folder> := [];
    ghost var os := Scan(pastas);
    for i := 0 to |pastas|
      invariant comData == Present(os[..i])
    {
      PresentPrefix(os, i);
      var text := Strip(pastas[i].text);
      var m := FindMatch(text, 0);
      if m.Some? {
        var data := ExtractDate(text, m.value);
        if ValidDate(data) {
          comData := comData + [Folder(data, text, pastas[i].href)];
        }
      }
    }
    assert Scan(pastas)[..|pastas|] == Scan(pastas);
    if comData == [] {
      return Failure(NoFolderFound);
    }
    r := Success(comData[LatestIndex(comData)]);
  }

  // ------------------------------------------------- what Select promises

  lemma SelectFailsIffNonePresent(os: seq<Option<Folder>>)
    ensures Select(os) == Failure(NoFolderFound) <==> forall i :: 0 <= i < |os| ==> os[i].None?
  {
    var fs := Present(os);
    if fs != [] {
      PresentMembers(os, fs[0]);
    } else {
      forall i | 0 <= i < |os| ensures os[i].None? {
        if os[i].Some? {
          PresentMembers(os, os[i].value);
        }
      }
    }
  }

  /** Entry w wins: it is present, no present entry is more recent, and every later present entry is strictly older. */
  predicate WinsAt(os: seq<Option<Folder>>, w: nat) {
    && w < |os|
    && os[w].Some?
    && (forall i :: 0 <= i < |os| && os[i].Some? ==> DateLe(os[i].value.date, os[w].value.date))
    && (forall i :: w < i < |os| && os[i].Some? ==> DateLt(os[i].value.date, os[w].value.date))
  }

  /** The selected folder is the latest entry, and ties go to the last one in order. */
  lemma {:induction false} SelectLastWins(os: seq<Option<Folder>>) returns (w: nat)
    requires Select(os).Success?
    ensures WinsAt(os, w) && os[w] == Some(Select(os).value)
  {
    var init := os[..|os| - 1];
    var o := os[|os| - 1];
    assert os == init + [o];
    if o.None? {
      assert Present(os) == Present(init);
      var w0 := SelectLastWins(init);
      w := WinsAtExtended(init, o, w0);
    } else if Present(init) == [] {
      w := |os| - 1;
      SelectFailsIffNonePresent(init);
      assert Present(os) == [o.value];
    } else {
      var w0 := SelectLastWins(init);
      w := WinsAtExtended(init, o, w0);
    }
  }

  /** One more entry after the winner w0 of init either takes over or leaves w0 the winner. */
  lemma WinsAtExtended(init: seq<Option<Folder>>, o: Option<Folder>, w0: nat) returns (w: nat)
    requires Select(init).Success? && WinsAt(init, w0) && init[w0] == Some(Select(init).value)
    ensures var os := init + [o]; Select(os).Success? && WinsAt(os, w) && os[w] == Some(Select(os).value)
  {
    var os := init + [o];
    var fs0 := Present(init);
    var best := fs0[LatestIndex(fs0)];
    assert os[..|os| - 1] == init;
    assert forall i :: 0 <= i < |init| ==> os[i] == init[i];
    if o.None? {
      assert Present(os) == fs0;
      w := w0;
    } else {
      var fs := Present(os);
      assert fs == fs0 + [o.value];
      assert fs[..|fs| - 1] == fs0;
      if DateLe(best.date, o.value.date) {
        w := |os| - 1;
        assert Select(os).value == o.value;
        forall i | 0 <= i < |os| - 1 && os[i].Some?
          ensures DateLe(os[i].value.date, o.value.date)
        {
          assert DateLe(init[i].value.date, best.date);
        }
      } else {
        w := w0;
        assert Select(os).value == best;
      }
    }
  }

  /** At most one entry wins, so the winner determines the result (the converse of SelectLastWins). */
  lemma SelectIsTheWinner(os: seq<Option<Folder>>, w: nat)
    requires WinsAt(os, w)
    ensures Select(os) == Success(os[w].value)
  {
    SelectFailsIffNonePresent(os);
    var v := SelectLastWins(os);
  }

  // ------------------------------------------------ what Resolve promises

  lemma ResolveFailsIffNoneAccepted(cs: seq<Candidate>)
    ensures Resolve(cs) == Failure(NoFolderFound) <==> forall c :: c in cs ==> LabelDate(c.text) == None
  {
    SelectFailsIffNonePresent(Scan(cs));
    if Resolve(cs) != Failure(NoFolderFound) {
      var i :| 0 <= i < |cs| && Scan(cs)[i].Some?;
      assert cs[i] in cs;
    }
  }

  /**
   * The folder opened is that of link w, where link w carries a valid date,
   * no link carries a later one, and every link after w carries an earlier one.
   */
  lemma ResolveLastWins(cs: seq<Candidate>) returns (w: nat)
    requires Resolve(cs).Success?
    ensures w < |cs| && Accept(cs[w]) == Some(Resolve(cs).value)
    ensures forall c :: c in cs && LabelDate(c.text).Some? ==> DateLe(LabelDate(c.text).value, Resolve(cs).value.date)
    ensures forall i :: w < i < |cs| && LabelDate(cs[i].text).Some? ==> DateLt(LabelDate(cs[i].text).value, Resolve(cs).value.date)
  {
    w := SelectLastWins(Scan(cs));
    forall c | c in cs && LabelDate(c.text).Some?
      ensures DateLe(LabelDate(c.text).value, Resolve(cs).value.date)
    {
      var i :| 0 <= i < |cs| && cs[i] == c;
      assert Scan(cs)[i].Some?;
    }
    forall i | w < i < |cs| && LabelDate(cs[i].text).Some?
      ensures DateLt(LabelDate(cs[i].text).value, Resolve(cs).value.date)
    {
      assert Scan(cs)[i].Some?;
    }
  }

  /** Conversely, a link with those three properties is the one opened. */
  lemma ResolveIsTheWinner(cs: seq<Candidate>, w: nat)
    requires w < |cs| && LabelDate(cs[w].text).Some?
    requires forall i :: 0 <= i < |cs| && LabelDate(cs[i].text).Some? ==> DateLe(LabelDate(cs[i].text).value, LabelDate(cs[w].text).value)
    requires forall i :: w < i < |cs| && LabelDate(cs[i].text).Some? ==> DateLt(LabelDate(cs[i].text).value, LabelDate(cs[w].text).value)
    ensures Resolve(cs) == Success(Accept(cs[w]).value)
  {
    SelectIsTheWinner(Scan(cs), w);
  }

  // ----------------------------------------- reference: a stable sort by date

  predicate SortedByDate(fs: seq<Folder>) {
    forall i, j :: 0 <= i < j < |fs| ==> DateLe(fs[i].date, fs[j].date)
  }

  /** Inserts x after every entry that is not more recent than x, as a stable insertion sort does. */
  function InsertByDate(s: seq<Folder>, x: Folder): (r: seq<Folder>)
    ensures multiset(r) == multiset(s) + multiset{x}
  {
    if s == [] then [x]
    else if DateLt(x.date, s[0].date) then [x] + s
    else
      assert s == [s[0]] + s[1..];
      [s[0]] + InsertByDate(s[1..], x)
  }

  lemma DateLeTransitive(a: Date, b: Date, c: Date)
    requires DateLe(a, b) && DateLe(b, c)
    ensures DateLe(a, c)
  {
  }

  lemma DateLtLeTransitive(a: Date, b: Date, c: Date)
    requires DateLt(a, b) && DateLe(b, c)
    ensures DateLt(a, c)
  {
  }

  lemma SortedTail(s: seq<Folder>)
    requires s != [] && SortedByDate(s)
    ensures SortedByDate(s[1..])
  {
    var t := s[1..];
    forall i, j | 0 <= i < j < |t| ensures DateLe(t[i].date, t[j].date) {
      assert t[i] == s[i + 1] && t[j] == s[j + 1];
    }
  }

  lemma SortedCons(h: Folder, t: seq<Folder>)
    requires SortedByDate(t)
    requires forall y :: y in t ==> DateLe(h.date, y.date)
    ensures SortedByDate([h] + t)
  {
    var r := [h] + t;
    forall i, j | 0 <= i < j < |r| ensures DateLe(r[i].date, r[j].date) {
      assert r[j] == t[j - 1];
      if i > 0 {
        assert r[i] == t[i - 1];
      }
    }
  }

  lemma {:induction false} InsertByDateSorted(s: seq<Folder>, x: Folder)
    requires SortedByDate(s)
    ensures SortedByDate(InsertByDate(s, x))
  {
    if s == [] {
    } else if DateLt(x.date, s[0].date) {
      forall y | y in s ensures DateLe(x.date, y.date) {
        var k :| 0 <= k < |s| && s[k] == y;
        if k > 0 {
          assert DateLe(s[0].date, s[k].date);
        }
        DateLtLeTransitive(x.date, s[0].date, y.date);
      }
      SortedCons(x, s);
    } else {
      var t := s[1..];
      var rest := InsertByDate(t, x);
      SortedTail(s);
      InsertByDateSorted(t, x);
      forall y | y in rest ensures DateLe(s[0].date, y.date) {
        assert y in multiset(rest);
        if y != x {
          assert y in multiset(t);
          var k :| 0 <= k < |t| && t[k] == y;
          assert s[k + 1] == y;
        }
      }
      SortedCons(s[0], rest);
    }
  }

  /** The entries dated d, in order. */
  function WithDate(fs: seq<Folder>, d: Date): seq<Folder> {
    if fs == [] then [] else (if fs[0].date == d then [fs[0]] else []) + WithDate(fs[1..], d)
  }

  lemma {:induction false} WithDateAppend(a: seq<Folder>, b: seq<Folder>, d: Date)
    ensures WithDate(a + b, d) == WithDate(a, d) + WithDate(b, d)
  {
    if a != [] {
      assert (a + b)[0] == a[0] && (a + b)[1..] == a[1..] + b;
      WithDateAppend(a[1..], b, d);
      var h := if a[0].date == d then [a[0]] else [];
      assert h + (WithDate(a[1..], d) + WithDate(b, d)) == (h + WithDate(a[1..], d)) + WithDate(b, d);
    } else {
      assert a + b == b;
    }
  }

  lemma {:induction false} WithDateNone(fs: seq<Folder>, d: Date)
    requires forall k :: 0 <= k < |fs| ==> fs[k].date != d
    ensures WithDate(fs, d) == []
  {
    if fs != [] {
      assert fs[0].date != d;
      forall k | 0 <= k < |fs| - 1 ensures fs[1..][k].date != d {
        assert fs[1..][k] == fs[k + 1];
      }
      WithDateNone(fs[1..], d);
    }
  }

  lemma WithDateSingle(x: Folder, d: Date)
    ensures WithDate([x], d) == if x.date == d then [x] else []
  {
    assert [x][1..] == [];
  }

  /** Insertion puts x after every entry of its own date. */
  lemma {:induction false} InsertByDateKeepsTies(s: seq<Folder>, x: Folder, d: Date)
    requires SortedByDate(s)
    ensures WithDate(InsertByDate(s, x), d) == WithDate(s, d) + WithDate([x], d)
  {
    if s == [] {
      assert [] + WithDate([x], d) == WithDate([x], d);
    } else if DateLt(x.date, s[0].date) {
      InsertInFrontKeepsTies(s, x, d);
    } else {
      var t := s[1..];
      SortedTail(s);
      InsertByDateKeepsTies(t, x, d);
      assert InsertByDate(s, x) == [s[0]] + InsertByDate(t, x);
      assert s == [s[0]] + t;
      ConsKeepsTies(s[0], t, InsertByDate(t, x), x, d);
    }
  }

  /** Putting the same entry in front of both sides keeps the ties equation. */
  lemma ConsKeepsTies(h: Folder, t: seq<Folder>, rest: seq<Folder>, x: Folder, d: Date)
    requires WithDate(rest, d) == WithDate(t, d) + WithDate([x], d)
    ensures WithDate([h] + rest, d) == WithDate([h] + t, d) + WithDate([x], d)
  {
    var a := WithDate([h], d);
    WithDateAppend([h], rest, d);
    WithDateAppend([h], t, d);
    assert a + (WithDate(t, d) + WithDate([x], d)) == (a + WithDate(t, d)) + WithDate([x], d);
  }

  /** An x earlier than the whole sorted list goes in front, and no entry shares its date. */
  lemma InsertInFrontKeepsTies(s: seq<Folder>, x: Folder, d: Date)
    requires SortedByDate(s) && s != [] && DateLt(x.date, s[0].date)
    ensures WithDate(InsertByDate(s, x), d) == WithDate(s, d) + WithDate([x], d)
  {
    assert InsertByDate(s, x) == [x] + s;
    WithDateAppend([x], s, d);
    WithDateSingle(x, d);
    if x.date == d {
      forall k | 0 <= k < |s| ensures s[k].date != d {
        if k > 0 {
          assert DateLe(s[0].date, s[k].date);
        }
        DateLtLeTransitive(x.date, s[0].date, s[k].date);
      }
      WithDateNone(s, d);
      assert [x] + [] == [] + [x];
    } else {
      assert [] + WithDate(s, d) == WithDate(s, d) + [];
    }
  }

  /** The stable sort sorted(..., key=date) of the Python code. */
  function SortByDate(fs: seq<Folder>): (r: seq<Folder>)
    ensures multiset(r) == multiset(fs)
  {
    if fs == [] then []
    else
      assert fs == fs[..|fs| - 1] + [fs[|fs| - 1]];
      InsertByDate(SortByDate(fs[..|fs| - 1]), fs[|fs| - 1])
  }

  lemma {:induction false} SortByDateSorted(fs: seq<Folder>)
    ensures SortedByDate(SortByDate(fs))
  {
    if fs != [] {
      SortByDateSorted(fs[..|fs| - 1]);
      InsertByDateSorted(SortByDate(fs[..|fs| - 1]), fs[|fs| - 1]);
    }
  }

  /** Stability: the entries of any one date keep their input order. */
  lemma {:induction false} SortByDateStable(fs: seq<Folder>, d: Date)
    ensures WithDate(SortByDate(fs), d) == WithDate(fs, d)
  {
    if fs != [] {
      var init := fs[..|fs| - 1];
      var last := fs[|fs| - 1];
      assert fs == init + [last];
      WithDateAppend(init, [last], d);
      var sorted := SortByDate(init);
      assert SortByDate(fs) == InsertByDate(sorted, last);
      SortByDateStable(init, d);
      SortByDateSorted(init);
      InsertByDateKeepsTies(sorted, last, d);
    }
  }

  lemma {:induction false} InsertByDateLast(s: seq<Folder>, x: Folder)
    requires s != [] && SortedByDate(s)
    ensures var r := InsertByDate(s, x);
      r != [] && r[|r| - 1] == if DateLe(s[|s| - 1].date, x.date) then x else s[|s| - 1]
  {
    var last := s[|s| - 1];
    if DateLt(x.date, s[0].date) {
      if |s| > 1 {
        assert DateLe(s[0].date, last.date);
      }
      DateLtLeTransitive(x.date, s[0].date, last.date);
      assert InsertByDate(s, x) == [x] + s;
    } else if |s| > 1 {
      var t := s[1..];
      SortedTail(s);
      InsertByDateLast(t, x);
      assert t[|t| - 1] == last;
      var rest := InsertByDate(t, x);
      assert InsertByDate(s, x) == [s[0]] + rest;
      assert ([s[0]] + rest)[|rest|] == rest[|rest| - 1];
    } else {
      assert InsertByDate(s, x) == [s[0]] + [x];
    }
  }

  lemma {:induction false} SortByDateLastIsLatest(fs: seq<Folder>)
    requires fs != []
    ensures var r := SortByDate(fs); |r| == |fs| && r[|r| - 1] == fs[LatestIndex(fs)]
  {
    var r := SortByDate(fs);
    assert |r| == |multiset(r)| == |multiset(fs)| == |fs|;
    var init := fs[..|fs| - 1];
    if init != [] {
      SortByDateLastIsLatest(init);
      SortByDateSorted(init);
      InsertByDateLast(SortByDate(init), fs[|fs| - 1]);
    }
  }

  /** Resolve picks what the Python code picks: the last element of the stable sort of pastas_com_data. */
  lemma ResolveIsLastOfStableSort(cs: seq<Candidate>)
    requires Resolve(cs).Success?
    ensures var r := SortByDate(DatedFolders(cs)); r != [] && Resolve(cs).value == r[|r| - 1]
  {
    SortByDateLastIsLatest(DatedFolders(cs));
  }
}
