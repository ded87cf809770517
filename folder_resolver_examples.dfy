/**
 * Worked examples of folder resolution on concrete portal labels. A label
 * is written FolderLabel(d): FolderLabel(Date(2024, 2, 29)) is the text
 * Atualizado_ate_29_02_2024.
 */
module FolderResolverExamples {
  import opened Wrappers
  import opened Text
  import opened FolderResolver

  /** Atualizado_ate_29_02_2024 is accepted: 29 February exists in 2024. */
  lemma LeapDayIsAccepted(d: Date)
    requires d == Date(2024, 2, 29)
    ensures LabelDate(FolderLabel(d)) == Some(d)
  {
    assert ValidDate(d);
    LabelRoundTrip(d);
  }

  /** Atualizado_ate_31_02_2025 is skipped without an error: 31 February fails datetime's day check. */
  lemma FebruaryThirtyFirstIsSkipped(d: Date)
    requires d == Date(2025, 2, 31)
    ensures LabelDate(FolderLabel(d)) == None
  {
    assert !ValidDate(d);
    LabelRoundTrip(d);
  }

  /** Atualizado_ate_29_02_2023 is skipped: 2023 is not a leap year. */
  lemma NonLeapDayIsSkipped(d: Date)
    requires d == Date(2023, 2, 29)
    ensures LabelDate(FolderLabel(d)) == None
  {
    assert !ValidDate(d);
    LabelRoundTrip(d);
  }

  /** Atualizado_ate_01_01_0000 is skipped: year 0 is below datetime.MINYEAR. */
  lemma YearZeroIsSkipped(d: Date)
    requires d == Date(0, 1, 1)
    ensures LabelDate(FolderLabel(d)) == None
  {
    assert !ValidDate(d);
    LabelRoundTrip(d);
  }

  /**
   * Only the first token is read: "Atualizado_ate_31_02_2025 Atualizado_ate_01_01_2024",
   * or any label whose first token is an impossible date, is skipped even
   * though a valid token follows.
   */
  lemma OnlyFirstTokenCounts(first: Date, second: Date)
    requires 0 <= first.year < 10000 && 0 <= first.month < 100 && 0 <= first.day < 100
    requires 0 <= second.year < 10000 && 0 <= second.month < 100 && 0 <= second.day < 100
    requires !ValidDate(first) && ValidDate(second)
    ensures LabelDate(FolderLabel(second)) == Some(second)
    ensures LabelDate(FolderLabel(first) + " " + FolderLabel(second)) == None
  {
    LabelRoundTrip(second);
    var rest := " " + FolderLabel(second);
    assert FolderLabel(first) + " " + FolderLabel(second) == FolderLabel(first) + rest;
    assert rest[|rest| - 1] == FolderLabel(second)[|FolderLabel(second)| - 1];
    FirstTokenDecides(first, rest);
  }

  /** A label shorter than a token has no date. */
  lemma NoTokenNoDate(text: string)
    requires text == "foo"
    ensures LabelDate(text) == None
  {
  }

  /** The Atualizado_ate_01_01_2025 label carries 1 January 2025. */
  lemma NewYearIsAccepted(d: Date)
    requires d == Date(2025, 1, 1)
    ensures LabelDate(FolderLabel(d)) == Some(d)
  {
    assert ValidDate(d);
    LabelRoundTrip(d);
  }

  /** The Atualizado_ate_10_03_2024 label carries 10 March 2024. */
  lemma MarchTenthIsAccepted(d: Date)
    requires d == Date(2024, 3, 10)
    ensures LabelDate(FolderLabel(d)) == Some(d)
  {
    assert ValidDate(d);
    LabelRoundTrip(d);
  }

  /** The Atualizado_ate_15_06_2024 label carries 15 June 2024. */
  lemma JuneFifteenthIsAccepted(d: Date)
    requires d == Date(2024, 6, 15)
    ensures LabelDate(FolderLabel(d)) == Some(d)
  {
    assert ValidDate(d);
    LabelRoundTrip(d);
  }

  /**
   * Links labelled "Atualizado_ate_10_03_2024", "Atualizado_ate_01_01_2025"
   * and "foo" (MarchTenthIsAccepted, NewYearIsAccepted and NoTokenNoDate read those labels): the
   * later of the two dates is opened and the undated link is ignored.
   */
  lemma LatestOfTwo(older: string, newer: string, undated: string, h1: string, h2: string, h3: string)
    requires LabelDate(older) == Some(Date(2024, 3, 10))
    requires LabelDate(newer) == Some(Date(2025, 1, 1))
    requires LabelDate(undated) == None
    ensures Resolve([Candidate(older, h1), Candidate(newer, h2), Candidate(undated, h3)])
         == Success(Folder(Date(2025, 1, 1), Strip(newer), h2))
  {
    var cs := [Candidate(older, h1), Candidate(newer, h2), Candidate(undated, h3)];
    var os := Scan(cs);
    var loser := Folder(Date(2024, 3, 10), Strip(older), h1);
    var winner := Folder(Date(2025, 1, 1), Strip(newer), h2);
    assert os[0] == Accept(cs[0]) == Some(loser);
    assert os[1] == Accept(cs[1]) == Some(winner);
    assert os[2] == Accept(cs[2]) == None;
    assert os == [Some(loser), Some(winner), None];
    MiddleOfThreeWins(loser, winner);
    SelectIsTheWinner(os, 1);
  }

  /** In the verdicts [older, newer, skipped] the newer folder wins. */
  lemma MiddleOfThreeWins(a: Folder, b: Folder)
    requires DateLt(a.date, b.date)
    ensures WinsAt([Some(a), Some(b), None], 1)
  {
    var os := [Some(a), Some(b), None];
    forall i | 0 <= i < |os| && os[i].Some? ensures DateLe(os[i].value.date, b.date) {
      if i == 0 {
        assert os[i] == Some(a);
      }
    }
  }

  /**
   * Links labelled "Atualizado_ate_31_02_2025" and "Atualizado_ate_15_06_2024"
   * (FebruaryThirtyFirstIsSkipped and JuneFifteenthIsAccepted read them): the impossible date is
   * excluded, so the other link wins although its date is earlier.
   */
  lemma InvalidDateExcluded(impossible: string, valid: string, h1: string, h2: string)
    requires LabelDate(impossible) == None
    requires LabelDate(valid) == Some(Date(2024, 6, 15))
    ensures Resolve([Candidate(impossible, h1), Candidate(valid, h2)]) == Success(Folder(Date(2024, 6, 15), Strip(valid), h2))
  {
    var cs := [Candidate(impossible, h1), Candidate(valid, h2)];
    var os := Scan(cs);
    assert os[0] == Accept(cs[0]) == None;
    assert os[1] == Accept(cs[1]) == Some(Folder(Date(2024, 6, 15), Strip(valid), h2));
    assert WinsAt(os, 1);
    SelectIsTheWinner(os, 1);
  }

  /** Two links carrying the same date: the later one in page order is opened. */
  lemma TieGoesToLastLink(first: string, second: string, d: Date, h1: string, h2: string)
    requires LabelDate(first) == Some(d) && LabelDate(second) == Some(d)
    ensures Resolve([Candidate(first, h1), Candidate(second, h2)]) == Success(Folder(d, Strip(second), h2))
  {
    var cs := [Candidate(first, h1), Candidate(second, h2)];
    var os := Scan(cs);
    assert os[0] == Accept(cs[0]) == Some(Folder(d, Strip(first), h1));
    assert os[1] == Accept(cs[1]) == Some(Folder(d, Strip(second), h2));
    assert WinsAt(os, 1);
    SelectIsTheWinner(os, 1);
  }

  /** With no dated link the run stops with NoFolderFound. */
  lemma NothingDated(undated: string, h: string)
    requires undated == "foo"
    ensures Resolve([Candidate(undated, h)]) == Failure(NoFolderFound)
  {
    NoTokenNoDate(undated);
    ResolveFailsIffNoneAccepted([Candidate(undated, h)]);
  }
}
