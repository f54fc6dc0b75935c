/** The bio page: its own presence card, which lists every activity except
    listening and always shows an elapsed badge, and the profile settings read
    from the environment and the query string. */
module Bio {
  import opened Runtime
  import opened Presence

  /** The activities the bio card lists: every one except listening. */
  function BioListed(activities: seq<Activity>): (r: seq<Activity>)
    ensures forall i | 0 <= i < |r| :: r[i].activityType != ListeningType
  {
    Without(activities, {ListeningType})
  }

  /** The presence card lists the bio card's activities without the custom status. */
  lemma CardListsBioWithoutCustomStatus(activities: seq<Activity>)
    ensures Listed(activities) == Without(BioListed(activities), {CustomStatusType})
  {
    WithoutTwice(activities, {ListeningType}, {CustomStatusType});
    assert {ListeningType} + {CustomStatusType} == {CustomStatusType, ListeningType};
  }

  /** `activity.timestamps?.start || 0`. */
  function BadgeStart(a: Activity): (start: int)
    ensures a.timestamps.None? || a.timestamps.value.start.None? ==> start == 0
    ensures a.timestamps.Some? && a.timestamps.value.start.Some? ==> start == a.timestamps.value.start.value
  {
    match a.timestamps
    case Some(Timestamps(Some(start), _)) => start
    case _ => 0
  }

  /** The badge of every listed activity: `getElapsedTime` of its start, then " elapsed". */
  function BioBadge(a: Activity, now: int): (text: string)
    ensures |text| > |" elapsed"| && text[|text| - |" elapsed"|..] == " elapsed"
    ensures ReadElapsed(text[..|text| - |" elapsed"|]) == Some(ElapsedMinutes(now, BadgeStart(a)))
  {
    var t := ElapsedText(now, BadgeStart(a));
    assert (t + " elapsed")[..|t|] == t && (t + " elapsed")[|t|..] == " elapsed";
    t + " elapsed"
  }

  /** Where both cards show a badge, they show the same elapsed time. */
  lemma BadgesAgree(a: Activity, now: int)
    requires ElapsedBadge(a, now).Some?
    ensures BioBadge(a, now) == ElapsedBadge(a, now).value + " elapsed"
  {
  }

  /** An activity with no start counts from the epoch: its badge reads `now` in minutes. */
  lemma MissingStartIsEpoch(a: Activity, now: int)
    requires a.timestamps.None? || a.timestamps.value.start.None?
    ensures var text := BioBadge(a, now);
            ReadElapsed(text[..|text| - |" elapsed"|]) == Some(now / 60000)
  {
    assert BadgeStart(a) == 0;
    assert ElapsedMinutes(now, 0) == now / 60000;
  }

  const DefaultTechs: seq<string> := ["Skidding"]
  const GuraTech: string := "Linqfy's mom"

  /** `bioTechs`: the comma-separated `NEXT_PUBLIC_BIO_TECHS`, or `["Skidding"]`
      when it is unset or empty. */
  function BioTechs(techsEnv: Option<string>): (techs: seq<string>)
    ensures |techs| >= 1
    ensures Truthy(techsEnv) ==> Join(techs, ',') == techsEnv.value
    ensures Truthy(techsEnv) ==> forall i | 0 <= i < |techs| :: ',' !in techs[i]
    ensures !Truthy(techsEnv) ==> techs == DefaultTechs
  {
    if Truthy(techsEnv) then
      JoinSplit(techsEnv.value, ',');
      Split(techsEnv.value, ',')
    else DefaultTechs
  }

  /** What the page shows of the query string and the environment. */
  datatype Profile = Profile(profilePic: string, techs: seq<string>)

  /** `BioContent`: the query parameter `linqfy-stop-asking-for-the-gura-pfp`, when
      present with any value, switches the picture and adds one technology. */
  function BioProfile(guraParam: Option<string>, techsEnv: Option<string>): (p: Profile)
    ensures p.profilePic == (if guraParam.Some? then "/gura.gif" else "/profile.gif")
    ensures |p.techs| == |BioTechs(techsEnv)| + (if guraParam.Some? then 1 else 0)
    ensures p.techs[..|BioTechs(techsEnv)|] == BioTechs(techsEnv)
    ensures guraParam.Some? ==> p.techs[|p.techs| - 1] == GuraTech
  {
    var isGuraProfilePic := guraParam.Some?;
    var profilePic := if isGuraProfilePic then "/gura.gif" else "/profile.gif";
    var bioTechs := BioTechs(techsEnv);
    var techs := if isGuraProfilePic then bioTechs + [GuraTech] else bioTechs;
    Profile(profilePic, techs)
  }

  /** Technologies listed in the environment come back one by one, when none
      holds a comma. */
  lemma TechsFromEnvironment(techs: seq<string>)
    requires |techs| >= 1 && (|techs| > 1 || techs[0] != [])
    requires forall i | 0 <= i < |techs| :: ',' !in techs[i]
    ensures BioProfile(None, Some(Join(techs, ','))).techs == techs
  {
    SplitJoin(techs, ',');
    if |techs| > 1 {
      assert Join(techs, ',')[|techs[0]|] == ',';
    }
  }
}
