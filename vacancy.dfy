/** The record built for one listing. */
module VacancyRecord {
  import opened Wrappers

  datatype Vacancy = Vacancy(
    url: string,
    isRemote: bool,
    isPartTime: bool,
    experience: string,
    salaryMin: Option<nat>,
    salaryMax: Option<nat>,
    technologies: seq<string>,
    tags: seq<string>
  )
}
