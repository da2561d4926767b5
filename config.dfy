/** The two keyword vocabularies of the scraper's settings. */
module Config {
  import opened Sequences

  const TagsToSearch: seq<string> := [
    "Backend",
    "Back-End",
    "Frontend",
    "Front-End",
    "Scarping",
    "Machine Learning"
  ]

  /** "Flask" is listed twice (positions 1 and 10). */
  const TechnologiesToSearch: seq<string> := [
    "Django",
    "Flask",
    "Pytorch",
    "TensorFlow",
    "AWS",
    "Postgres",
    "Apache",
    "Redis",
    "C#",
    "Fastapi",
    "Flask",
    "SQLAlchemy",
    "Azure",
    "Playwright",
    "RabbitMQ",
    "Airflow"
  ]

  // The four quarter lemmas below only walk the literal list in steps small
  // enough for the solver; FlaskListedTwice puts them together.
  lemma FlaskCountFirstQuarter()
    ensures multiset(TechnologiesToSearch[..4])["Flask"] == multiset(TechnologiesToSearch[..0])["Flask"] + 1
  {
    var t := TechnologiesToSearch;
    PrefixCountStep(t, 0, "Flask");
    assert |t[0]| != 5;
    PrefixCountStep(t, 1, "Flask");
    assert t[1] == "Flask";
    PrefixCountStep(t, 2, "Flask");
    assert |t[2]| != 5;
    PrefixCountStep(t, 3, "Flask");
    assert |t[3]| != 5;
  }

  lemma FlaskCountSecondQuarter()
    ensures multiset(TechnologiesToSearch[..8])["Flask"] == multiset(TechnologiesToSearch[..4])["Flask"] + 0
  {
    var t := TechnologiesToSearch;
    PrefixCountStep(t, 4, "Flask");
    assert |t[4]| != 5;
    PrefixCountStep(t, 5, "Flask");
    assert |t[5]| != 5;
    PrefixCountStep(t, 6, "Flask");
    assert |t[6]| != 5;
    PrefixCountStep(t, 7, "Flask");
    assert t[7][0] != 'F';
  }

  lemma FlaskCountThirdQuarter()
    ensures multiset(TechnologiesToSearch[..12])["Flask"] == multiset(TechnologiesToSearch[..8])["Flask"] + 1
  {
    var t := TechnologiesToSearch;
    PrefixCountStep(t, 8, "Flask");
    assert |t[8]| != 5;
    PrefixCountStep(t, 9, "Flask");
    assert |t[9]| != 5;
    PrefixCountStep(t, 10, "Flask");
    assert t[10] == "Flask";
    PrefixCountStep(t, 11, "Flask");
    assert |t[11]| != 5;
  }

  lemma FlaskCountFourthQuarter()
    ensures multiset(TechnologiesToSearch[..16])["Flask"] == multiset(TechnologiesToSearch[..12])["Flask"] + 0
  {
    var t := TechnologiesToSearch;
    PrefixCountStep(t, 12, "Flask");
    assert t[12][0] != 'F';
    PrefixCountStep(t, 13, "Flask");
    assert |t[13]| != 5;
    PrefixCountStep(t, 14, "Flask");
    assert |t[14]| != 5;
    PrefixCountStep(t, 15, "Flask");
    assert |t[15]| != 5;
  }

  /** The duplicate: the technology vocabulary lists "Flask" exactly twice. */
  lemma FlaskListedTwice()
    ensures multiset(TechnologiesToSearch)["Flask"] == 2
  {
    assert TechnologiesToSearch[..0] == [];
    FlaskCountFirstQuarter();
    FlaskCountSecondQuarter();
    FlaskCountThirdQuarter();
    FlaskCountFourthQuarter();
    assert TechnologiesToSearch[..16] == TechnologiesToSearch;
  }
}
