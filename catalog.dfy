/** The reference-data models of models.py: facilities and reactors, the
    people and regulation sections of an event, their display names and the
    ordered VENDORS table. */
module Catalog {
  import opened Wrappers
  import opened Text

  /** A calendar date, Python's datetime.date */
  datatype Date = Date(year: int, month: int, day: int)

  predicate IsLeapYear(y: int) { y % 4 == 0 && (y % 100 != 0 || y % 400 == 0) }

  function DaysInMonth(year: int, month: int): int
    requires 1 <= month <= 12
  {
    if month == 2 then (if IsLeapYear(year) then 29 else 28)
    else if month == 4 || month == 6 || month == 9 || month == 11 then 30
    else 31
  }

  /** The dates datetime.date(year, month, day) accepts (years 1 to 9999);
      any other triple raises ValueError. */
  predicate ValidDate(d: Date)
  {
    1 <= d.year <= 9999 && 1 <= d.month <= 12 && 1 <= d.day <= DaysInMonth(d.year, d.month)
  }

  /** A site with one or more reactors */
  datatype Facility = Facility(
    name: string, shortName: string, city: string, state: string,
    region: int, operator: string)

  /** A power reactor; vendor None is a field left at its default, a date
      None is one that was not given or did not parse. */
  datatype Reactor = Reactor(
    unit: int, nrcId: int, nrcUrl: string, nrcPhoto: string,
    rxType: string, containment: string, vendor: Option<string>, model: string,
    engineer: string, constructedBy: string,
    permitIssuedOn: Option<Date>, licenseIssuedOn: Option<Date>,
    operationalOn: Option<Date>, licenseRenewedOn: Option<Date>,
    licenseExpiresOn: Option<Date>, active: bool, facility: Facility)

  datatype EventPerson = EventPerson(name: string, organization: string)

  datatype CfrSection = CfrSection(section: string, title: string)

  /** Who designed the reactor system, by code, in the order the loader
      searches them. */
  const Vendors: seq<(string, string)> := [
    ("GE", "General Electric"),
    ("B&W", "Babcock & Wilcox"),
    ("CE", "Combustion Engineering"),
    ("WEST", "Westinghouse Electric")
  ]

  /** Reactor.title: "<facility name>, Unit <n>", or the name alone for unit 0 */
  function Title(r: Reactor): string
  {
    if r.unit != 0 then r.facility.name + ", Unit " + IntToString(r.unit) else r.facility.name
  }

  /** Reactor.short_title: "<short name> <n>", or the short name alone for unit 0 */
  function ShortTitle(r: Reactor): string
  {
    if r.unit != 0 then r.facility.shortName + " " + IntToString(r.unit) else r.facility.shortName
  }

  /** Reactor.__unicode__ */
  function ReactorText(r: Reactor): string
  {
    ShortTitle(r)
  }

  /** EventPerson.__unicode__: "<name>, <organization>" */
  function PersonText(p: EventPerson): string
  {
    p.name + ", " + p.organization
  }

  /** CFRSection.__unicode__: "<section> <title>" */
  function SectionText(c: CfrSection): string
  {
    c.section + " " + c.title
  }

  /** A person's display text splits back at its first ", " into name and
      organization whenever the name has no comma. */
  lemma PersonTextSplits(p: EventPerson)
    requires ',' !in p.name
    ensures SplitFirst(PersonText(p), ", ") == (p.name, Some(p.organization))
  {
    SplitFirstOfConcat(p.name, p.organization, ", ");
  }

  /** A section's display text splits back at its first space into section
      and title whenever the section code has no space. */
  lemma SectionTextSplits(c: CfrSection)
    requires ' ' !in c.section
    ensures SplitFirst(SectionText(c), " ") == (c.section, Some(c.title))
  {
    SplitFirstOfConcat(c.section, c.title, " ");
  }
}
