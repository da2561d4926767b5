/**
 * parse_single_vacancy without the fetch and the HTML parser: the flags,
 * the experience level, the salary bounds, the technologies and the tags,
 * all read off the text nodes of the page's `.b-vacancy` element.
 */
module VacancyPage {
  import opened Wrappers
  import opened Text
  import opened Sequences
  import opened Html
  import opened Config
  import opened VacancyRecord

  /** soup.find_all(string=lambda text: kw in text.lower()): the text nodes that contain kw once lowered. */
  function FindAll(texts: seq<string>, kw: string): seq<string> {
    Filter((text: string) => Contains(Lower(text), kw), texts)
  }

  /** The find_all above is non-empty (truthy). */
  predicate Found(texts: seq<string>, kw: string) {
    FindAll(texts, kw) != []
  }

  /** Some single text node contains kw once lowered. */
  predicate Mentions(texts: seq<string>, kw: string) {
    exists i | 0 <= i < |texts| :: Contains(Lower(texts[i]), kw)
  }

  /** find_all finds a keyword exactly when one single text node contains it, lowered. */
  lemma FoundIffMentions(texts: seq<string>, kw: string)
    ensures Found(texts, kw) <==> Mentions(texts, kw)
  {
    FilterEmpty((text: string) => Contains(Lower(text), kw), texts);
  }

  const RemoteKeywords: seq<string> := ["віддален", "remote"]
  const PartTimeKeywords: seq<string> := ["part time", "part-time", "погодинно"]

  /** any(soup.find_all(...) for kw in keywords) */
  predicate AnyFound(texts: seq<string>, keywords: seq<string>) {
    exists k | 0 <= k < |keywords| :: Found(texts, keywords[k])
  }

  predicate IsRemote(texts: seq<string>) {
    AnyFound(texts, RemoteKeywords)
  }

  predicate IsPartTime(texts: seq<string>) {
    AnyFound(texts, PartTimeKeywords)
  }

  /** is_remote holds exactly when some lowered text node contains "віддален" or "remote". */
  lemma IsRemoteIff(texts: seq<string>)
    ensures IsRemote(texts) <==> exists i | 0 <= i < |texts| ::
      Contains(Lower(texts[i]), "віддален") || Contains(Lower(texts[i]), "remote")
  {
    FoundIffMentions(texts, "віддален");
    FoundIffMentions(texts, "remote");
    assert RemoteKeywords[0] == "віддален" && RemoteKeywords[1] == "remote";
  }

  /** is_part_time holds exactly when some lowered text node contains "part time", "part-time" or "погодинно". */
  lemma IsPartTimeIff(texts: seq<string>)
    ensures IsPartTime(texts) <==> exists i | 0 <= i < |texts| ::
      Contains(Lower(texts[i]), "part time") || Contains(Lower(texts[i]), "part-time") ||
      Contains(Lower(texts[i]), "погодинно")
  {
    FoundIffMentions(texts, "part time");
    FoundIffMentions(texts, "part-time");
    FoundIffMentions(texts, "погодинно");
    assert PartTimeKeywords[0] == "part time" && PartTimeKeywords[1] == "part-time";
    assert PartTimeKeywords[2] == "погодинно";
  }

  /** A keyword split over two text nodes is not found. */
  lemma SplitKeywordNotFound()
    ensures !IsRemote(["Remo", "te"])
  {
    IsRemoteIff(["Remo", "te"]);
  }

  /** The experience levels, in the order they are tried. */
  const Levels: seq<string> := ["Trainee", "Стажер", "Junior", "Middle", "Senior", "Tech Lead", "Techlead", "Teamlead"]

  /** The values experience can take. */
  const ExperienceLabels: set<string> := {"", "Trainee", "Junior", "Middle", "Senior", "Tech Lead"}

  /** The synonyms collapsed after the scan. */
  function Canonical(level: string): string {
    if level in ["Tech Lead", "Techlead", "Teamlead"] then "Tech Lead"
    else if level in ["Trainee", "Стажер"] then "Trainee"
    else level
  }

  /** The label each level collapses to. */
  lemma CanonicalLevels()
    ensures Canonical(Levels[0]) == "Trainee" && Canonical(Levels[1]) == "Trainee"
    ensures Canonical(Levels[2]) == "Junior" && Canonical(Levels[3]) == "Middle" && Canonical(Levels[4]) == "Senior"
    ensures Canonical(Levels[5]) == "Tech Lead" && Canonical(Levels[6]) == "Tech Lead" && Canonical(Levels[7]) == "Tech Lead"
  {
    assert "Middle"[0] != "Стажер"[0] && "Senior"[0] != "Стажер"[0];
  }

  lemma CanonicalIsLabel(i: nat)
    requires i < |Levels|
    ensures Canonical(Levels[i]) in ExperienceLabels && Canonical(Levels[i]) != ""
  {
    CanonicalLevels();
    if i < 2 {
    } else if i < 5 {
    } else {
    }
  }

  /** Index of the first level, from index i on, that the page mentions (lowered). */
  function FirstMentioned(texts: seq<string>, levels: seq<string>, i: nat): (r: Option<nat>)
    requires i <= |levels|
    ensures r.Some? ==> (i <= r.value < |levels| && Mentions(texts, Lower(levels[r.value])) &&
      forall j | i <= j < r.value :: !Mentions(texts, Lower(levels[j])))
    ensures r.None? ==> forall j | i <= j < |levels| :: !Mentions(texts, Lower(levels[j]))
    decreases |levels| - i
  {
    if i == |levels| then None
    else if Mentions(texts, Lower(levels[i])) then Some(i)
    else FirstMentioned(texts, levels, i + 1)
  }

  /**
   * The experience level: the first entry of Levels the page mentions, its
   * synonyms collapsed, or "" when it mentions none.
   */
  function ExperienceOf(texts: seq<string>): (e: string)
    ensures e in ExperienceLabels
  {
    match FirstMentioned(texts, Levels, 0)
    case None =>
      assert Canonical("") == "";
      Canonical("")
    case Some(i) =>
      CanonicalIsLabel(i);
      Canonical(Levels[i])
  }

  /**
   * The experience level is "" exactly when no level is mentioned, and
   * otherwise the label of the first level mentioned.
   */
  lemma ExperienceOfIsFirstMentioned(texts: seq<string>)
    ensures ExperienceOf(texts) == "" <==> forall j | 0 <= j < |Levels| :: !Mentions(texts, Lower(Levels[j]))
    ensures ExperienceOf(texts) != "" ==> exists i | 0 <= i < |Levels| ::
      Mentions(texts, Lower(Levels[i])) && (forall j | 0 <= j < i :: !Mentions(texts, Lower(Levels[j]))) &&
      ExperienceOf(texts) == Canonical(Levels[i])
  {
    match FirstMentioned(texts, Levels, 0)
    case None =>
      assert Canonical("") == "";
    case Some(i) =>
      CanonicalIsLabel(i);
      assert Mentions(texts, Lower(Levels[i]));
  }

  /** A level the page does not mention is passed over. */
  lemma FirstMentionedSkip(texts: seq<string>, levels: seq<string>, i: nat)
    requires i < |levels| && !Mentions(texts, Lower(levels[i]))
    ensures FirstMentioned(texts, levels, i) == FirstMentioned(texts, levels, i + 1)
  {
  }

  /** Where the scan stops at i, the experience is the label of Levels[i], or "" past the end. */
  lemma ExperienceOfLevel(texts: seq<string>, i: nat)
    requires i <= |Levels| && FirstMentioned(texts, Levels, 0) == FirstMentioned(texts, Levels, i)
    requires i < |Levels| ==> Mentions(texts, Lower(Levels[i]))
    ensures ExperienceOf(texts) == Canonical(if i < |Levels| then Levels[i] else "")
  {
  }

  /** The experience scan: a for loop with break over Levels, then the synonym collapse. */
  method ScanExperience(texts: seq<string>) returns (experience: string)
    ensures experience == ExperienceOf(texts)
  {
    experience := "";
    var i := 0;
    while i < |Levels|
      invariant 0 <= i <= |Levels|
      invariant FirstMentioned(texts, Levels, 0) == FirstMentioned(texts, Levels, i)
    {
      var level := Levels[i];
      FoundIffMentions(texts, Lower(level));
      if FindAll(texts, Lower(level)) != [] {
        experience := level;
        ExperienceOfLevel(texts, i);
        break;
      }
      FirstMentionedSkip(texts, Levels, i);
      i := i + 1;
    }
    if i == |Levels| {
      ExperienceOfLevel(texts, i);
    }
    if experience in ["Tech Lead", "Techlead", "Teamlead"] {
      experience := "Tech Lead";
    } else if experience in ["Trainee", "Стажер"] {
      experience := "Trainee";
    }
  }

  lemma {:induction false} FirstMentionedSameNodes(t1: seq<string>, t2: seq<string>, levels: seq<string>, i: nat)
    requires i <= |levels|
    requires forall j | i <= j < |levels| :: Mentions(t1, Lower(levels[j])) == Mentions(t2, Lower(levels[j]))
    ensures FirstMentioned(t1, levels, i) == FirstMentioned(t2, levels, i)
    decreases |levels| - i
  {
    if i < |levels| {
      FirstMentionedSameNodes(t1, t2, levels, i + 1);
    }
  }

  /** Neither the order of the text nodes nor their repetition affects the experience level. */
  lemma ExperienceIgnoresNodeOrder(t1: seq<string>, t2: seq<string>)
    requires forall x :: x in t1 <==> x in t2
    ensures ExperienceOf(t1) == ExperienceOf(t2)
  {
    forall kw: string ensures Mentions(t1, kw) == Mentions(t2, kw) {
      if Mentions(t1, kw) {
        var i :| 0 <= i < |t1| && Contains(Lower(t1[i]), kw);
        assert t1[i] in t2;
      }
      if Mentions(t2, kw) {
        var i :| 0 <= i < |t2| && Contains(Lower(t2[i]), kw);
        assert t2[i] in t1;
      }
    }
    FirstMentionedSameNodes(t1, t2, Levels, 0);
  }

  /**
   * A page that mentions both Senior and Middle (and no earlier level) is a
   * Middle vacancy, wherever the two words stand on the page.
   */
  lemma SeniorAndMiddleIsMiddle(texts: seq<string>)
    requires Mentions(texts, Lower("Middle")) && Mentions(texts, Lower("Senior"))
    requires !Mentions(texts, Lower("Trainee")) && !Mentions(texts, Lower("Стажер")) && !Mentions(texts, Lower("Junior"))
    ensures ExperienceOf(texts) == "Middle"
  {
    assert Levels[0] == "Trainee" && Levels[1] == "Стажер" && Levels[2] == "Junior" && Levels[3] == "Middle";
    assert FirstMentioned(texts, Levels, 0) == Some(3);
  }

  /** int(s.replace(",", "").strip()) for one digit run: the comma removal and strip change nothing. */
  function IntOfRun(run: string): (n: nat)
    requires run != [] && AllDigits(run)
    ensures n == DecimalValue(run)
  {
    assert ',' !in run;
    RemoveAbsentChar(run, ',');
    StripUnchanged(run);
    DecimalValue(Strip(RemoveChar(run, ',')))
  }

  /** The salary numbers: one per maximal digit run, in the order of the text. */
  function SalaryNumbers(salaryText: string): (numbers: seq<nat>)
    ensures |numbers| == |DigitRuns(salaryText)|
    ensures forall k | 0 <= k < |numbers| :: numbers[k] == DecimalValue(DigitRuns(salaryText)[k])
  {
    var runs := DigitRuns(salaryText);
    seq(|runs|, k requires 0 <= k < |runs| => IntOfRun(runs[k]))
  }

  /** (salary_min, salary_max) */
  datatype Salary = Salary(min: Option<nat>, max: Option<nat>)

  /**
   * Two digit runs give (min, max) in text order, one run gives both bounds,
   * no salary node, no run or more than two runs leave both unset.
   */
  function SalaryOf(salaryText: Option<string>): Salary {
    if salaryText.None? then Salary(None, None)
    else
      var salaryNumbers := SalaryNumbers(salaryText.value);
      if |salaryNumbers| == 2 then Salary(Some(salaryNumbers[0]), Some(salaryNumbers[1]))
      else if |salaryNumbers| == 1 then Salary(Some(salaryNumbers[0]), Some(salaryNumbers[0]))
      else Salary(None, None)
  }

  lemma SalaryOfSpec(salaryText: Option<string>)
    ensures salaryText.None? ==> SalaryOf(salaryText) == Salary(None, None)
    ensures salaryText.Some? ==>
      var runs := DigitRuns(salaryText.value);
      if |runs| == 2 then SalaryOf(salaryText) == Salary(Some(DecimalValue(runs[0])), Some(DecimalValue(runs[1])))
      else if |runs| == 1 then SalaryOf(salaryText) == Salary(Some(DecimalValue(runs[0])), Some(DecimalValue(runs[0])))
      else SalaryOf(salaryText) == Salary(None, None)
  {
  }

  /** Two digit runs joined by one non-digit give (min, max) in text order. */
  lemma SalaryOfTwoRuns(x: string, c: char, y: string)
    requires x != [] && AllDigits(x) && y != [] && AllDigits(y) && !IsDigit(c)
    ensures SalaryOf(Some(x + [c] + y)) == Salary(Some(DecimalValue(x)), Some(DecimalValue(y)))
  {
    DigitRunsSplit(x, c, y);
    DigitRunsWhole(x);
    DigitRunsWhole(y);
    assert DigitRuns(x + [c] + y) == [x, y];
    SalaryOfSpec(Some(x + [c] + y));
  }

  /**
   * A thousands separator splits the number: "30,000" reads as min 30 and
   * max 0, and in general "x,y" as min x and max y.
   */
  lemma ThousandsSeparatorSplitsNumber(x: string, y: string)
    requires x != [] && AllDigits(x) && y != [] && AllDigits(y)
    ensures SalaryOf(Some(x + "," + y)) == Salary(Some(DecimalValue(x)), Some(DecimalValue(y)))
  {
    assert x + "," + y == x + [','] + y;
    SalaryOfTwoRuns(x, ',', y);
  }

  /** The page's "30,000" gives min 30 and max 0. */
  lemma ThirtyThousandReadsAsThirtyAndZero()
    ensures SalaryOf(Some("30,000")) == Salary(Some(30), Some(0))
  {
    var x, y := "30", "000";
    assert DecimalValue(x) == 30 by {
      assert x[..1] == "3" && "3"[..0] == [];
    }
    assert DecimalValue(y) == 0 by {
      assert y[..2] == "00" && "00"[..1] == "0" && "0"[..0] == [];
    }
    assert x + "," + y == "30,000";
    ThousandsSeparatorSplitsNumber(x, y);
  }

  /** The bounds are not reordered: "5000-3000" gives a min above its max. */
  lemma SalaryBoundsNotOrdered(x: string, y: string)
    requires x != [] && AllDigits(x) && y != [] && AllDigits(y) && DecimalValue(x) > DecimalValue(y)
    ensures exists lo: nat, hi: nat | lo > hi :: SalaryOf(Some(x + "-" + y)) == Salary(Some(lo), Some(hi))
  {
    assert x + "-" + y == x + ['-'] + y;
    SalaryOfTwoRuns(x, '-', y);
    assert SalaryOf(Some(x + "-" + y)) == Salary(Some(DecimalValue(x)), Some(DecimalValue(y)));
  }

  /** [entry for entry in vocabulary if soup.find_all(... entry.lower() in text.lower())] */
  function MatchVocabulary(texts: seq<string>, vocabulary: seq<string>): seq<string> {
    Filter((entry: string) => Found(texts, Lower(entry)), vocabulary)
  }

  /**
   * The matched entries are the vocabulary entries the page mentions, in
   * vocabulary order, each as many times as the vocabulary lists it.
   */
  lemma MatchVocabularySpec(texts: seq<string>, vocabulary: seq<string>, x: string)
    ensures IsSubsequence(MatchVocabulary(texts, vocabulary), vocabulary)
    ensures multiset(MatchVocabulary(texts, vocabulary))[x] ==
      if Mentions(texts, Lower(x)) then multiset(vocabulary)[x] else 0
    ensures forall k | 0 <= k < |MatchVocabulary(texts, vocabulary)| ::
      MatchVocabulary(texts, vocabulary)[k] in vocabulary && Mentions(texts, Lower(MatchVocabulary(texts, vocabulary)[k]))
  {
    FilterIsSubsequence((entry: string) => Found(texts, Lower(entry)), vocabulary);
    FilterCount((entry: string) => Found(texts, Lower(entry)), vocabulary, x);
    FoundIffMentions(texts, Lower(x));
    forall k | 0 <= k < |MatchVocabulary(texts, vocabulary)|
      ensures Mentions(texts, Lower(MatchVocabulary(texts, vocabulary)[k]))
    {
      FoundIffMentions(texts, Lower(MatchVocabulary(texts, vocabulary)[k]));
    }
  }

  /** An entry the vocabulary lists twice is reported twice by a page that mentions it. */
  lemma ListedTwiceReportedTwice(texts: seq<string>, vocabulary: seq<string>, x: string)
    requires multiset(vocabulary)[x] == 2 && Mentions(texts, Lower(x))
    ensures multiset(MatchVocabulary(texts, vocabulary))[x] == 2
  {
    MatchVocabularySpec(texts, vocabulary, x);
  }

  /** "Flask" is listed twice, so a page that mentions it has it twice among its technologies. */
  lemma FlaskReportedTwice(texts: seq<string>)
    requires Mentions(texts, "flask")
    ensures multiset(MatchVocabulary(texts, TechnologiesToSearch))["Flask"] == 2
  {
    assert Lower("Flask") == "flask";
    FlaskListedTwice();
    ListedTwiceReportedTwice(texts, TechnologiesToSearch, "Flask");
  }

  /** The record parse_single_vacancy builds from a page's `.b-vacancy` element. */
  function VacancyOf(url: string, block: VacancyBlock): Vacancy {
    var salary := SalaryOf(block.salary);
    Vacancy(
      url := url,
      isRemote := IsRemote(block.texts),
      isPartTime := IsPartTime(block.texts),
      experience := ExperienceOf(block.texts),
      salaryMin := salary.min,
      salaryMax := salary.max,
      technologies := MatchVocabulary(block.texts, TechnologiesToSearch),
      tags := MatchVocabulary(block.texts, TagsToSearch)
    )
  }

  /** parse_single_vacancy on a fetched page; a page without `.b-vacancy` fails. */
  method ParseSingleVacancy(url: string, page: DetailPage) returns (r: Result<Vacancy, Error>)
    ensures page.None? ==> r == Failure(MissingVacancyBlock)
    ensures page.Some? ==> r == Success(VacancyOf(url, page.value))
  {
    if page.None? {
      return Failure(MissingVacancyBlock);
    }
    var soup := page.value;
    var isRemote := IsRemote(soup.texts);
    var isPartTime := IsPartTime(soup.texts);
    var experience := ScanExperience(soup.texts);
    var salary := SalaryOf(soup.salary);
    var technologies := MatchVocabulary(soup.texts, TechnologiesToSearch);
    var tags := MatchVocabulary(soup.texts, TagsToSearch);
    var vacancy := Vacancy(url, isRemote, isPartTime, experience, salary.min, salary.max, technologies, tags);
    assert vacancy == VacancyOf(url, soup);
    return Success(vacancy);
  }

  /**
   * What every record satisfies: its experience is one of the labels, its
   * technologies and tags are drawn from their vocabularies in vocabulary order.
   */
  lemma VacancyOfWellFormed(url: string, block: VacancyBlock)
    ensures VacancyOf(url, block).url == url
    ensures VacancyOf(url, block).experience in ExperienceLabels
    ensures IsSubsequence(VacancyOf(url, block).technologies, TechnologiesToSearch)
    ensures IsSubsequence(VacancyOf(url, block).tags, TagsToSearch)
    ensures VacancyOf(url, block).salaryMin.Some? <==> VacancyOf(url, block).salaryMax.Some?
  {
    var v := VacancyOf(url, block);
    var salary := SalaryOf(block.salary);
    assert v.salaryMin == salary.min && v.salaryMax == salary.max;
    SalaryOfSpec(block.salary);
    MatchVocabularySpec(block.texts, TechnologiesToSearch, "");
    MatchVocabularySpec(block.texts, TagsToSearch, "");
  }
}
