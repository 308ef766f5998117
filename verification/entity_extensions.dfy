/** The entity-to-response mapper of the BackEnd
    (`BackEnd.Data.EntityExtensions`): three expression-bodied extension
    methods, each an object initializer that copies scalar properties and
    flattens join collections with `?.Select(...).ToList()`.

    For each mapper the module gives
    - the precondition: every row of a loaded join collection has the
      navigation object the projection dereferences (otherwise the source
      throws a NullReferenceException, which is not modelled);
    - the mapper itself, written as the object initializer it is;
    - a relational description of the response, property by property,
      independent of how the mapper builds it, and a lemma that the mapper's
      result is the one and only response that satisfies it. */
module EntityExtensions {
  import opened Wrappers
  import opened SystemTypes
  import opened Entities
  import opened ConferenceDTO
  import opened Linq

  // ---------------------------------------------------------------------
  // Element images: what one join row becomes in the response list.

  /** `new TagDto { ID = st.TagID, Name = st.Tag.Name }` */
  ghost predicate IsTagDtoOf(st: SessionTag, d: TagDto) {
    st.tag.Some? && d.id == st.tagId && d.name == st.tag.value.name
  }

  /** `new SpeakerDto { ID = ss.SpeakerId, Name = ss.Speaker.Name }`:
      the speaker's bio and web site are not carried over and stay null. */
  ghost predicate IsSpeakerDtoOf(ss: SessionSpeaker, d: SpeakerDto) {
    && ss.speaker.Some?
    && d.id == ss.speakerId
    && d.name == ss.speaker.value.name
    && d.bio.None? && d.webSite.None?
  }

  /** `new SessionDto { ID = ss.SessionId, Title = ss.Session.Title }`:
      every other session property keeps its default. */
  ghost predicate IsSpeakerSessionDtoOf(ss: SessionSpeaker, d: SessionDto) {
    && ss.session.Some?
    && d.id == ss.sessionId
    && d.title == ss.session.value.title
    && d.conferenceId == 0
    && d.sessionAbstract.None? && d.startTime.None? && d.endTime.None? && d.trackId.None?
  }

  /** `new SessionDto { ID = s.SessionID, Title, StartTime, EndTime }` from
      the joined session; every other session property keeps its default. */
  ghost predicate IsAttendeeSessionDtoOf(sa: SessionAttendee, d: SessionDto) {
    && sa.session.Some?
    && d.id == sa.sessionId
    && d.title == sa.session.value.title
    && d.startTime == sa.session.value.startTime
    && d.endTime == sa.session.value.endTime
    && d.conferenceId == 0
    && d.sessionAbstract.None? && d.trackId.None?
  }

  /** `new ConferenceDto { ID = ca.ConferenceID, Name = ca.Conference.Name }` */
  ghost predicate IsConferenceDtoOf(ca: ConferenceAttendee, d: ConferenceDto) {
    ca.conference.Some? && d.id == ca.conferenceId && d.name == ca.conference.value.name
  }

  // ---------------------------------------------------------------------
  // Session

  /** The navigations `MapSessionResponse` dereferences are loaded:
      `st.Tag` for every tag row and `ss.Speaker` for every speaker row. */
  predicate SessionJoinsLoaded(session: Session) {
    && (session.sessionTags.Some? ==> forall st <- session.sessionTags.value :: st.tag.Some?)
    && (session.sessionSpeakers.Some? ==> forall ss <- session.sessionSpeakers.value :: ss.speaker.Some?)
  }

  /** What `MapSessionResponse` promises about its result. */
  ghost predicate IsSessionResponseOf(session: Session, r: SessionResponse) {
    // scalar properties copied verbatim
    && r.id == session.id
    && r.title == session.title
    && r.startTime == session.startTime
    && r.endTime == session.endTime
    && r.trackId == session.trackId
    && r.conferenceId == session.conferenceId
    && r.sessionAbstract == session.sessionAbstract
    // tag and speaker lists: null exactly when the join collection is null,
    // otherwise one entry per join row in the same order
    && Projects(session.sessionTags, r.tags, IsTagDtoOf)
    && Projects(session.sessionSpeakers, r.speakers, IsSpeakerDtoOf)
    // the nested track is always present
    && r.track.Some?
    && r.track.value.trackId == (if session.trackId.Some? then session.trackId.value else 0)
    && r.track.value.name == (if session.track.Some? then session.track.value.name else None)
    && r.track.value.conferenceId == 0
  }

  function MapSessionResponse(session: Session): (r: SessionResponse)
    requires SessionJoinsLoaded(session)
    ensures IsSessionResponseOf(session, r)
  {
    NewSessionResponse.(
      id := session.id,
      title := session.title,
      startTime := session.startTime,
      endTime := session.endTime,
      tags := SelectToList(session.sessionTags,
        (st: SessionTag) requires st.tag.Some? =>
          NewTagDto.(id := st.tagId, name := st.tag.value.name)),
      speakers := SelectToList(session.sessionSpeakers,
        (ss: SessionSpeaker) requires ss.speaker.Some? =>
          NewSpeakerDto.(id := ss.speakerId, name := ss.speaker.value.name)),
      trackId := session.trackId,
      track := Some(NewTrackDto.(
        trackId := if session.trackId.Some? then session.trackId.value else 0,
        name := if session.track.Some? then session.track.value.name else None)),
      conferenceId := session.conferenceId,
      sessionAbstract := session.sessionAbstract)
  }

  /** The description is complete: the mapper's result is the only
      response that satisfies it. */
  lemma MapSessionResponseCharacterised(session: Session, r: SessionResponse)
    requires SessionJoinsLoaded(session)
    ensures IsSessionResponseOf(session, r) <==> r == MapSessionResponse(session)
  {
    if IsSessionResponseOf(session, r) {
      var m := MapSessionResponse(session);
      if session.sessionTags.Some? {
        var rows := session.sessionTags.value;
        assert forall i :: 0 <= i < |rows| ==> IsTagDtoOf(rows[i], r.tags.value[i]) && IsTagDtoOf(rows[i], m.tags.value[i]);
        assert r.tags.value == m.tags.value;
      }
      if session.sessionSpeakers.Some? {
        var rows := session.sessionSpeakers.value;
        assert forall i :: 0 <= i < |rows| ==> IsSpeakerDtoOf(rows[i], r.speakers.value[i]) && IsSpeakerDtoOf(rows[i], m.speakers.value[i]);
        assert r.speakers.value == m.speakers.value;
      }
    }
  }

  /** `SessionResponse` initialises `Speakers` and `Tags` to empty lists, but
      the mapper assigns them unconditionally: a join collection that was
      not loaded overwrites the empty list with null. */
  lemma UnloadedJoinsOverwriteEmptyDefaults(session: Session)
    requires SessionJoinsLoaded(session)
    requires session.sessionTags.None? && session.sessionSpeakers.None?
    ensures NewSessionResponse.tags == Some([]) && NewSessionResponse.speakers == Some([])
    ensures MapSessionResponse(session).tags.None? && MapSessionResponse(session).speakers.None?
  {
  }

  /** A session with no track: the nested track is still present, with
      `TrackID` 0 and a null name. */
  lemma SessionWithoutTrack(session: Session)
    requires SessionJoinsLoaded(session)
    requires session.trackId.None? && session.track.None?
    ensures MapSessionResponse(session).track == Some(TrackDto(0, 0, None))
  {
  }

  /** When every tag row's foreign key agrees with the tag it navigates to,
      each entry of `Tags` is exactly that tag's own identifier and name. */
  lemma TagsCarryJoinedTags(session: Session)
    requires SessionJoinsLoaded(session) && session.sessionTags.Some?
    requires forall st <- session.sessionTags.value :: st.tag.Some? && st.tagId == st.tag.value.id
    ensures forall i :: 0 <= i < |session.sessionTags.value| ==>
      MapSessionResponse(session).tags.value[i]
        == TagDto(session.sessionTags.value[i].tag.value.id, session.sessionTags.value[i].tag.value.name)
  {
  }

  // ---------------------------------------------------------------------
  // Speaker

  /** The navigation `MapSpeakerResponse` dereferences is loaded:
      `ss.Session` for every session row of the speaker. */
  predicate SpeakerJoinsLoaded(speaker: Speaker) {
    speaker.sessionSpeakers.Some? ==> forall ss <- speaker.sessionSpeakers.value :: ss.session.Some?
  }

  /** What `MapSpeakerResponse` promises about its result. */
  ghost predicate IsSpeakerResponseOf(speaker: Speaker, r: SpeakerResponse) {
    && r.id == speaker.id
    && r.name == speaker.name
    && r.bio == speaker.bio
    && r.webSite == speaker.webSite
    && Projects(speaker.sessionSpeakers, r.sessions, IsSpeakerSessionDtoOf)
  }

  function MapSpeakerResponse(speaker: Speaker): (r: SpeakerResponse)
    requires SpeakerJoinsLoaded(speaker)
    ensures IsSpeakerResponseOf(speaker, r)
  {
    NewSpeakerResponse.(
      id := speaker.id,
      name := speaker.name,
      bio := speaker.bio,
      webSite := speaker.webSite,
      sessions := SelectToList(speaker.sessionSpeakers,
        (ss: SessionSpeaker) requires ss.session.Some? =>
          NewSessionDto.(id := ss.sessionId, title := ss.session.value.title)))
  }

  /** The description is complete: the mapper's result is the only
      response that satisfies it. */
  lemma MapSpeakerResponseCharacterised(speaker: Speaker, r: SpeakerResponse)
    requires SpeakerJoinsLoaded(speaker)
    ensures IsSpeakerResponseOf(speaker, r) <==> r == MapSpeakerResponse(speaker)
  {
    if IsSpeakerResponseOf(speaker, r) && speaker.sessionSpeakers.Some? {
      var m := MapSpeakerResponse(speaker);
      var rows := speaker.sessionSpeakers.value;
      assert forall i :: 0 <= i < |rows| ==> IsSpeakerSessionDtoOf(rows[i], r.sessions.value[i]) && IsSpeakerSessionDtoOf(rows[i], m.sessions.value[i]);
      assert r.sessions.value == m.sessions.value;
    }
  }

  /** A speaker whose session joins are loaded but empty gets an empty list,
      not null. */
  lemma SpeakerWithoutSessions(speaker: Speaker)
    requires speaker.sessionSpeakers == Some([])
    ensures MapSpeakerResponse(speaker).sessions == Some([])
  {
  }

  // ---------------------------------------------------------------------
  // Attendee

  /** The navigations `MapAttendeeResponse` dereferences are loaded:
      `s.Session` for every session row and `ca.Conference` for every
      conference row. */
  predicate AttendeeJoinsLoaded(attendee: Attendee) {
    && (attendee.sessionsAttendees.Some? ==> forall sa <- attendee.sessionsAttendees.value :: sa.session.Some?)
    && (attendee.conferenceAttendees.Some? ==> forall ca <- attendee.conferenceAttendees.value :: ca.conference.Some?)
  }

  /** What `MapAttendeeResponse` promises about its result. */
  ghost predicate IsAttendeeResponseOf(attendee: Attendee, r: AttendeeResponse) {
    && r.id == attendee.id
    && r.firstName == attendee.firstName
    && r.lastName == attendee.lastName
    && r.userName == attendee.userName
    && Projects(attendee.sessionsAttendees, r.sessions, IsAttendeeSessionDtoOf)
    && Projects(attendee.conferenceAttendees, r.conferences, IsConferenceDtoOf)
  }

  function MapAttendeeResponse(attendee: Attendee): (r: AttendeeResponse)
    requires AttendeeJoinsLoaded(attendee)
    ensures IsAttendeeResponseOf(attendee, r)
  {
    NewAttendeeResponse.(
      id := attendee.id,
      firstName := attendee.firstName,
      lastName := attendee.lastName,
      userName := attendee.userName,
      sessions := SelectToList(attendee.sessionsAttendees,
        (sa: SessionAttendee) requires sa.session.Some? =>
          NewSessionDto.(
            id := sa.sessionId,
            title := sa.session.value.title,
            startTime := sa.session.value.startTime,
            endTime := sa.session.value.endTime)),
      conferences := SelectToList(attendee.conferenceAttendees,
        (ca: ConferenceAttendee) requires ca.conference.Some? =>
          NewConferenceDto.(id := ca.conferenceId, name := ca.conference.value.name)))
  }

  /** The description is complete: the mapper's result is the only
      response that satisfies it. */
  lemma MapAttendeeResponseCharacterised(attendee: Attendee, r: AttendeeResponse)
    requires AttendeeJoinsLoaded(attendee)
    ensures IsAttendeeResponseOf(attendee, r) <==> r == MapAttendeeResponse(attendee)
  {
    if IsAttendeeResponseOf(attendee, r) {
      var m := MapAttendeeResponse(attendee);
      if attendee.sessionsAttendees.Some? {
        var rows := attendee.sessionsAttendees.value;
        assert forall i :: 0 <= i < |rows| ==> IsAttendeeSessionDtoOf(rows[i], r.sessions.value[i]) && IsAttendeeSessionDtoOf(rows[i], m.sessions.value[i]);
        assert r.sessions.value == m.sessions.value;
      }
      if attendee.conferenceAttendees.Some? {
        var rows := attendee.conferenceAttendees.value;
        assert forall i :: 0 <= i < |rows| ==> IsConferenceDtoOf(rows[i], r.conferences.value[i]) && IsConferenceDtoOf(rows[i], m.conferences.value[i]);
        assert r.conferences.value == m.conferences.value;
      }
    }
  }

  /** Adding a conference registration to a loaded list appends exactly
      that conference's entry to `Conferences`; earlier entries keep their
      places. */
  lemma AppendedConferenceRowAppendsEntry(attendee: Attendee, ca: ConferenceAttendee)
    requires AttendeeJoinsLoaded(attendee) && attendee.conferenceAttendees.Some? && ca.conference.Some?
    ensures var after := attendee.(conferenceAttendees := Some(attendee.conferenceAttendees.value + [ca]));
      AttendeeJoinsLoaded(after)
      && MapAttendeeResponse(after).conferences.value
         == MapAttendeeResponse(attendee).conferences.value + [ConferenceDto(ca.conferenceId, ca.conference.value.name)]
  {
  }
}
