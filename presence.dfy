/** The Discord presence card: what it shows of a Lanyard presence record. The
    helpers are pure; the fetching and the rendering are not part of the model. */
module Presence {
  import opened Runtime

  datatype Timestamps = Timestamps(start: Option<int>, end: Option<int>)

  /** An entry of `activities`; Discord's activity type 2 is "listening", 4 is a
      custom status. */
  datatype Activity = Activity(name: string, activityType: int, state: Option<string>,
                               details: Option<string>, timestamps: Option<Timestamps>)

  datatype DiscordUser = DiscordUser(id: string, username: string,
                                     globalName: Option<string>, displayName: Option<string>)

  /** The presence record; an absent `active_on_discord_*` flag is `false`. */
  datatype PresenceData = PresenceData(user: DiscordUser, status: string, activities: seq<Activity>,
                                       onWeb: bool, onDesktop: bool, onMobile: bool)

  const ListeningType: int := 2
  const CustomStatusType: int := 4

  /** `getStatusColor`: the colour of the status dot. */
  function StatusColor(status: string): (c: string)
    ensures c == "bg-green-500" <==> status == "online"
    ensures c == "bg-yellow-500" <==> status == "idle"
    ensures c == "bg-red-500" <==> status == "dnd"
    ensures c == "bg-gray-500" <==> status !in {"online", "idle", "dnd"}
  {
    match status
    case "online" => "bg-green-500"
    case "idle" => "bg-yellow-500"
    case "dnd" => "bg-red-500"
    case _ => "bg-gray-500"
  }

  /** `getStatusText`: the status in words. */
  function StatusText(status: string): (t: string)
    ensures t == "Online" <==> status == "online"
    ensures t == "Idle" <==> status == "idle"
    ensures t == "Do Not Disturb" <==> status == "dnd"
    ensures t == "Offline" <==> status !in {"online", "idle", "dnd"}
  {
    match status
    case "online" => "Online"
    case "idle" => "Idle"
    case "dnd" => "Do Not Disturb"
    case _ => "Offline"
  }

  /** The dot and the words agree: a grey dot is exactly an "Offline" label. */
  lemma StatusColorMatchesText(status: string)
    ensures StatusColor(status) == "bg-gray-500" <==> StatusText(status) == "Offline"
  {
  }

  const WebIcon: string := "\U{1F310}"
  const DesktopIcon: string := "\U{1F4BB}"
  const MobileIcon: string := "\U{1F4F1}"

  /** `getDeviceIcon`: web before desktop before mobile; `None` is `null`. */
  function DeviceIcon(p: PresenceData): (r: Option<string>)
    ensures r.None? <==> !p.onWeb && !p.onDesktop && !p.onMobile
    ensures p.onWeb ==> r == Some(WebIcon)
    ensures !p.onWeb && p.onDesktop ==> r == Some(DesktopIcon)
    ensures !p.onWeb && !p.onDesktop && p.onMobile ==> r == Some(MobileIcon)
  {
    if p.onWeb then Some(WebIcon)
    else if p.onDesktop then Some(DesktopIcon)
    else if p.onMobile then Some(MobileIcon)
    else None
  }

  /** `activities.find(a => a.type === 4)`. */
  function CustomStatus(activities: seq<Activity>): (r: Option<Activity>)
    ensures r.None? <==> forall i | 0 <= i < |activities| :: activities[i].activityType != CustomStatusType
    ensures r.Some? ==> r.value.activityType == CustomStatusType && r.value in activities
  {
    if activities == [] then None
    else if activities[0].activityType == CustomStatusType then Some(activities[0])
    else
      var r := CustomStatus(activities[1..]);
      assert forall i | 1 <= i < |activities| :: activities[i] == activities[1..][i - 1];
      r
  }

  /** The custom status is the first one in the list, not any later one. */
  lemma {:induction false} CustomStatusIsFirst(activities: seq<Activity>, i: nat)
    requires i < |activities| && activities[i].activityType == CustomStatusType
    requires forall j | 0 <= j < i :: activities[j].activityType != CustomStatusType
    ensures CustomStatus(activities) == Some(activities[i])
  {
    if i > 0 {
      CustomStatusIsFirst(activities[1..], i - 1);
    }
  }

  /** `activities.filter(a => !excluded.has(a.type))`, in the original order. */
  function Without(activities: seq<Activity>, excluded: set<int>): (r: seq<Activity>)
    ensures |r| <= |activities|
    ensures forall i | 0 <= i < |r| :: r[i].activityType !in excluded
  {
    if activities == [] then []
    else
      var rest := Without(activities[1..], excluded);
      if activities[0].activityType in excluded then rest else [activities[0]] + rest
  }

  /** Filtering a concatenation filters each part, so the order is kept. */
  lemma {:induction false} WithoutAppend(a: seq<Activity>, b: seq<Activity>, excluded: set<int>)
    ensures Without(a + b, excluded) == Without(a, excluded) + Without(b, excluded)
  {
    if a == [] {
      assert a + b == b;
    } else {
      var ab := a + b;
      assert ab[0] == a[0] && ab[1..] == a[1..] + b;
      WithoutAppend(a[1..], b, excluded);
      var wa := Without(a[1..], excluded);
      var wb := Without(b, excluded);
      assert [a[0]] + (wa + wb) == ([a[0]] + wa) + wb;
    }
  }

  /** An activity is listed exactly when it is in the input and of a type not excluded. */
  lemma {:induction false} WithoutMembers(activities: seq<Activity>, excluded: set<int>, a: Activity)
    ensures a in Without(activities, excluded) <==> a in activities && a.activityType !in excluded
  {
    if activities != [] {
      WithoutMembers(activities[1..], excluded, a);
      assert activities == [activities[0]] + activities[1..];
    }
  }

  /** Filtering twice is filtering once by both. */
  lemma {:induction false} WithoutTwice(activities: seq<Activity>, first: set<int>, second: set<int>)
    ensures Without(Without(activities, first), second) == Without(activities, first + second)
  {
    if activities != [] {
      WithoutTwice(activities[1..], first, second);
    }
  }

  /** The activities the card lists: neither the custom status nor listening. */
  function Listed(activities: seq<Activity>): (r: seq<Activity>)
    ensures forall i | 0 <= i < |r| :: r[i].activityType != CustomStatusType && r[i].activityType != ListeningType
  {
    Without(activities, {CustomStatusType, ListeningType})
  }

  /** `display_name || global_name || username`. */
  function DisplayName(u: DiscordUser): (name: string)
    ensures Truthy(u.displayName) ==> name == u.displayName.value
    ensures !Truthy(u.displayName) && Truthy(u.globalName) ==> name == u.globalName.value
    ensures !Truthy(u.displayName) && !Truthy(u.globalName) ==> name == u.username
  {
    if Truthy(u.displayName) then u.displayName.value
    else if Truthy(u.globalName) then u.globalName.value
    else u.username
  }

  /** The shown name is empty only when all three names are. */
  lemma DisplayNameEmpty(u: DiscordUser)
    ensures DisplayName(u) == [] <==> !Truthy(u.displayName) && !Truthy(u.globalName) && u.username == []
  {
  }

  /** Whole minutes from `start` to `now`, both in milliseconds, rounded down. */
  function ElapsedMinutes(now: int, start: int): int
  {
    (now - start) / 60000
  }

  /** `formatElapsedTime`: `"{h}h {m}m"` from an hour on, `"{minutes}m"` below
      (negative when `start` lies ahead of `now`). */
  function ElapsedText(now: int, start: int): (text: string)
    ensures |text| >= 2 && text[|text| - 1] == 'm'
    ensures ReadElapsed(text) == Some(ElapsedMinutes(now, start))
  {
    MinutesTextReadsBack(ElapsedMinutes(now, start));
    MinutesText(ElapsedMinutes(now, start))
  }

  /** The text of a number of minutes: it has an hours part exactly from an hour on. */
  function MinutesText(minutes: int): (text: string)
    ensures |text| >= 2 && text[|text| - 1] == 'm'
    ensures 'h' in text <==> minutes / 60 > 0
  {
    var hours := minutes / 60;
    if hours > 0 then
      var t := IntString(hours) + "h " + IntString(minutes % 60) + "m";
      assert t[|IntString(hours)|] == 'h';
      t
    else
      NoLetterInNumber(minutes, 'h');
      IntString(minutes) + "m"
  }

  /** Reads an elapsed-time text back into minutes, `"1h 5m"` as 65. */
  function ReadElapsed(text: string): Option<int>
  {
    if text == [] || text[|text| - 1] != 'm' then None else ReadHoursAndMinutes(text[..|text| - 1])
  }

  /** `"{h}h {m}"` as `h * 60 + m`, or a lone `"{minutes}"`. */
  function ReadHoursAndMinutes(body: string): Option<int>
  {
    match SecondField(body, 'h')
    case None => ParseInt(body)
    case Some(rest) =>
      if rest == [] || rest[0] != ' ' then None
      else Combine(ParseInt(FirstField(body, 'h')), ParseInt(rest[1..]))
  }

  function Combine(hours: Option<int>, minutes: Option<int>): Option<int>
  {
    if hours.Some? && minutes.Some? then Some(hours.value * 60 + minutes.value) else None
  }

  lemma NoLetterInNumber(i: int, c: char)
    requires c != '-' && !IsDecimalDigit(c)
    ensures c !in IntString(i)
  {
    var s := IntString(i);
    if i < 0 {
      assert s == "-" + DecimalString(-i);
      assert forall k | 1 <= k < |s| :: s[k] == DecimalString(-i)[k - 1];
    }
  }

  lemma MinutesTextReadsBack(minutes: int)
    ensures ReadElapsed(MinutesText(minutes)) == Some(minutes)
  {
    if minutes / 60 > 0 {
      HoursTextReadsBack(minutes);
    } else {
      ReadMinutesBack(minutes);
    }
  }

  lemma HoursTextReadsBack(minutes: int)
    requires minutes / 60 > 0
    ensures ReadElapsed(MinutesText(minutes)) == Some(minutes)
  {
    var hours := minutes / 60;
    var rest := minutes % 60;
    calc {
      ReadElapsed(MinutesText(minutes));
      ReadElapsed(IntString(hours) + "h " + IntString(rest) + "m");
      { ReadHoursBack(hours, rest); }
      Some(hours * 60 + rest);
      Some(minutes);
    }
  }

  lemma ReadHoursBack(hours: int, rest: int)
    requires hours > 0 && 0 <= rest < 60
    ensures ReadElapsed(IntString(hours) + "h " + IntString(rest) + "m") == Some(hours * 60 + rest)
  {
    var body := IntString(hours) + ['h'] + (" " + IntString(rest));
    assert IntString(hours) + "h " + IntString(rest) + "m" == body + "m";
    ReadElapsedOfBody(body);
    ReadHoursParts(hours, rest);
    CombineBoth(hours, rest);
  }

  lemma CombineBoth(hours: int, minutes: int)
    ensures Combine(Some(hours), Some(minutes)) == Some(hours * 60 + minutes)
  {
  }

  lemma ReadElapsedOfBody(body: string)
    ensures ReadElapsed(body + "m") == ReadHoursAndMinutes(body)
  {
    assert (body + "m")[..|body|] == body;
  }

  lemma ReadHoursParts(hours: int, rest: int)
    requires hours > 0 && 0 <= rest < 60
    ensures ReadHoursAndMinutes(IntString(hours) + ['h'] + (" " + IntString(rest))) == Combine(Some(hours), Some(rest))
  {
    var h := IntString(hours);
    var m := " " + IntString(rest);
    var body := h + ['h'] + m;
    NoLetterInNumber(hours, 'h');
    NoLetterInNumber(rest, 'h');
    assert 'h' !in m;
    SecondFieldOfJoin(h, m, 'h');
    FirstFieldOfJoin(h, m, 'h');
    assert m[1..] == IntString(rest);
    ParseIntIntString(hours);
    ParseIntIntString(rest);
  }

  lemma ReadMinutesBack(minutes: int)
    ensures ReadElapsed(IntString(minutes) + "m") == Some(minutes)
  {
    var text := IntString(minutes) + "m";
    assert text[..|text| - 1] == IntString(minutes);
    NoLetterInNumber(minutes, 'h');
    ParseIntIntString(minutes);
  }

  /** The elapsed badge of a listed activity: shown only when `timestamps.start`
      is truthy, which a start at 0 is not. */
  function ElapsedBadge(a: Activity, now: int): (r: Option<string>)
    ensures r.Some? <==> a.timestamps.Some? && a.timestamps.value.start.Some? && a.timestamps.value.start.value != 0
    ensures r.Some? ==> ReadElapsed(r.value) == Some(ElapsedMinutes(now, a.timestamps.value.start.value))
  {
    match a.timestamps
    case Some(Timestamps(Some(start), _)) =>
      if start != 0 then
        Some(ElapsedText(now, start))
      else None
    case _ => None
  }
}
