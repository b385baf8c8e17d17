/** The project catalog and the team arithmetic of option 2 (app.py lines
    15-26 and 74-96): target sheets are taken five at a time, the n-th group
    is team n, and at most ten teams are formed.
 */
module Projects {

  const TeamSize: nat := 5
  const MaxTeams: nat := 10

  /** The fixed `projects` table: team number to project title. */
  const Catalog: map<int, string> := map[
    1 := "Exploratory Analysis of Iris Flower Measurements",
    2 := "Chemical Composition Analysis of Italian Wines",
    3 := "Descriptive Statistics of Tumor Cell Nuclei Characteristics",
    4 := "Profiling Health Indicators in Diabetes Patients",
    5 := "Physical Exercise and Physiological Measurements: A Correlation Study",
    6 := "Socioeconomic and Housing Trends in 1990 California Census Data",
    7 := "Demographic and Survival Trends of Titanic Passengers",
    8 := "Restaurant Billing and Tipping Behavior Analysis",
    9 := "Demographic and Economic Profile of US Census Data (1994)",
    10 := "Bank Loan Applicant Profiles of Credit Data"
  ]

  /** The catalog has a title for exactly the teams 1 to 10. */
  lemma CatalogCoversTeams()
    ensures forall t :: t in Catalog <==> 1 <= t <= MaxTeams
  {
  }

  /** `projects[team]` for a team the loop can reach: one of the catalog's
      titles, never empty. */
  function Title(team: int): (t: string)
    requires 1 <= team <= MaxTeams
    ensures t in Catalog.Values && |t| > 0
  {
    CatalogCoversTeams();
    Catalog[team]
  }

  /** Every team has a project of its own: different teams get different
      titles. */
  lemma TitlesDistinct(t1: int, t2: int)
    requires 1 <= t1 <= MaxTeams && 1 <= t2 <= MaxTeams && t1 != t2
    ensures Title(t1) != Title(t2)
  {
  }

  /** The team of the target sheet at 0-based position `i`; it is a real
      team, with a catalog entry, exactly for the first fifty sheets. */
  function TeamFor(i: nat): (t: int)
    ensures t >= 1
    ensures t <= MaxTeams <==> i < TeamSize * MaxTeams
    ensures TeamSize * (t - 1) <= i < TeamSize * t
  {
    i / TeamSize + 1
  }

  /** Twelve target sheets form two full teams and a third of two. */
  lemma TwelveSheets()
    ensures seq(12, i requires 0 <= i < 12 => TeamFor(i)) == [1, 1, 1, 1, 1, 2, 2, 2, 2, 2, 3, 3]
  {
  }
}
