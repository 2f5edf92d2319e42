/** The `reply` handler shared by the `now` and `longnow` commands: check
    the `timezone` argument, default it, and answer with the current time in
    that zone (the clock and the formatting themselves are not modelled). */
module TimeCommand {
  import opened Labels
  import opened Catalog
  import opened Autocomplete

  /** Python's `Optional[str]`. */
  datatype Option<T> = None | Some(value: T)

  /** The zone used when the command is sent without a timezone. */
  const DefaultZone: string := "Europe/Helsinki"

  /** What the handler does. */
  datatype Response =
    /** the ephemeral error reply */
    | InvalidTimezone(message: string)
    /** `format(datetime.now(tz=ZoneInfo(zone)), timeFormat)` is sent */
    | CurrentTime(zone: string, timeFormat: string)
    /** `ZoneInfo(key)` raises: no such key in the tz database */
    | ZoneNotFound(key: string)

  /** The error reply: the argument as typed, then a fixed request to pick
      from the list. */
  function InvalidTimezoneMessage(timezone: string): (message: string)
    ensures |timezone| < |message| && message[..|timezone|] == timezone
    ensures message[|timezone|..] == " is not a valid timezone. Please pick one from the list."
  {
    timezone + " is not a valid timezone. Please pick one from the list."
  }

  /** `zoneinfo.ZoneInfo(key)` followed by the reply with the current time;
      `zones` is the set of keys of the system's tz database. */
  function LoadZone(zones: set<string>, key: string, timeFormat: string): (response: Response)
    ensures response.CurrentTime? <==> key in zones
    ensures response.CurrentTime? ==> response == CurrentTime(key, timeFormat)
    ensures !response.CurrentTime? ==> response == ZoneNotFound(key)
  {
    if key in zones then CurrentTime(key, timeFormat) else ZoneNotFound(key)
  }

  /** `reply` as written: the argument is checked against the catalog's
      LABELS (the dict's keys), then handed to ZoneInfo. */
  function Reply(catalog: map<string, string>, zones: set<string>, timeFormat: string,
                 timezone: Option<string>): (response: Response)
    ensures response.InvalidTimezone? <==> timezone.Some? && timezone.value !in catalog
    ensures response.InvalidTimezone? ==> response.message == InvalidTimezoneMessage(timezone.value)
    ensures timezone.None? ==> response == LoadZone(zones, DefaultZone, timeFormat)
    ensures timezone.Some? && timezone.value in catalog ==> response == LoadZone(zones, timezone.value, timeFormat)
  {
    if timezone.Some? && timezone.value !in catalog then
      InvalidTimezone(InvalidTimezoneMessage(timezone.value))
    else
      LoadZone(zones, if timezone.None? then DefaultZone else timezone.value, timeFormat)
  }

  /** As written, a zone identifier containing '/' is always refused, since
      no catalog label contains '/'. */
  lemma ReplyRejectsZoneIdentifiers(zoneOrder: seq<string>, zones: set<string>, timeFormat: string, zone: string)
    requires '/' in zone
    ensures Reply(BuildCatalog(zoneOrder), zones, timeFormat, Some(zone)) ==
      InvalidTimezone(InvalidTimezoneMessage(zone))
  {
  }

  /** As written, the time is shown for an explicit argument only when that
      argument is a zone identifier that is its own label: no '/', no '_'. */
  lemma ReplyShowsOnlySelfLabelledZones(zoneOrder: seq<string>, zones: set<string>, timeFormat: string, timezone: string)
    requires Reply(BuildCatalog(zoneOrder), zones, timeFormat, Some(timezone)).CurrentTime?
    ensures timezone in zones && '/' !in timezone && '_' !in timezone
  {
    var catalog := BuildCatalog(zoneOrder);
    assert Label(catalog[timezone]) == timezone;
  }

  /** The discrepancy on the smallest catalog: with the single zone
      `region/city`, the autocomplete offers the choice (city, region/city)
      (SingleLabelOffered); sending the value of that choice is refused
      as an invalid timezone, and sending the label instead passes the check
      but names no zone. */
  lemma ChosenZoneRejected(region: string, city: string, timeFormat: string)
    requires '/' !in city && '_' !in city
    ensures var zone := region + "/" + city;
      && BuildCatalog([zone]) == map[city := zone]
      && Reply(map[city := zone], {zone}, timeFormat, Some(zone)) == InvalidTimezone(InvalidTimezoneMessage(zone))
      && Reply(map[city := zone], {zone}, timeFormat, Some(city)) == ZoneNotFound(city)
  {
    var zone := region + "/" + city;
    SingleZoneCatalog(region, city);
    assert zone[|zone| - |city| - 1] == '/';
    assert zone !in map[city := zone] && city != zone;
  }

  /** `reply` as evidently intended: the argument is checked against the
      zone identifiers the catalog offers (its values), which is what the
      autocomplete sends. */
  function ReplyByZone(catalog: map<string, string>, zones: set<string>, timeFormat: string,
                       timezone: Option<string>): (response: Response)
    ensures response.InvalidTimezone? <==> timezone.Some? && timezone.value !in catalog.Values
    ensures response.InvalidTimezone? ==> response.message == InvalidTimezoneMessage(timezone.value)
    ensures timezone.None? ==> response == LoadZone(zones, DefaultZone, timeFormat)
    ensures timezone.Some? && timezone.value in catalog.Values ==> response == LoadZone(zones, timezone.value, timeFormat)
  {
    if timezone.Some? && timezone.value !in catalog.Values then
      InvalidTimezone(InvalidTimezoneMessage(timezone.value))
    else
      LoadZone(zones, if timezone.None? then DefaultZone else timezone.value, timeFormat)
  }

  /** With the intended check, every choice the autocomplete offers is
      accepted and shows the time in the zone it names, provided the tz
      database holds the zones the catalog was built from. */
  lemma ReplyByZoneAcceptsChoices(zoneOrder: seq<string>, zones: set<string>, timeFormat: string,
                                  lower: char -> char, matcher: CloseMatcher, current: string,
                                  differenceOrder: seq<string>, choice: Choice)
    requires forall z :: z in zoneOrder ==> z in zones
    requires CloseMatchContract(CloseMatches(BuildCatalog(zoneOrder), matcher, current), BuildCatalog(zoneOrder).Keys, MaxChoices)
    requires Enumerates(differenceOrder, BuildCatalog(zoneOrder).Keys - Elements(CloseMatches(BuildCatalog(zoneOrder), matcher, current)))
    requires choice in GetTimezones(BuildCatalog(zoneOrder), lower, matcher, current, differenceOrder)
    ensures ReplyByZone(BuildCatalog(zoneOrder), zones, timeFormat, Some(choice.value)) == CurrentTime(choice.value, timeFormat)
  {
    var catalog := BuildCatalog(zoneOrder);
    assert catalog[choice.name] == choice.value;
    assert choice.value in catalog.Values;
  }

  /** With the intended check, an argument is accepted exactly when it is a
      zone identifier the catalog offers; without label collisions that is
      every zone of the database the catalog was built from. */
  lemma ReplyByZoneAcceptsEveryZone(zoneOrder: seq<string>, zones: set<string>, timeFormat: string, zone: string)
    requires NoCollisions(zoneOrder)
    requires forall z :: z in zoneOrder ==> z in zones
    ensures ReplyByZone(BuildCatalog(zoneOrder), zones, timeFormat, Some(zone)) ==
      if zone in zoneOrder then CurrentTime(zone, timeFormat) else InvalidTimezone(InvalidTimezoneMessage(zone))
  {
    var catalog := BuildCatalog(zoneOrder);
    if zone in zoneOrder {
      CatalogCompleteWithoutCollisions(zoneOrder, zone);
      assert catalog[Label(zone)] == zone;
    }
  }
}
