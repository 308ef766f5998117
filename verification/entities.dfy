/** The persisted entities of the BackEnd (namespace `BackEnd.Data`), with
    only the properties the mapper reads (and the tag's own key). A navigation property (a related
    entity or a join collection) is `None` when it was not loaded; a string
    property is `None` when it is null. Entity graphs are cyclic in memory;
    here each value holds what was loaded beneath it, to finite depth. */
module Entities {
  import opened Wrappers
  import opened SystemTypes

  datatype Session = Session(
    id: Int32,
    conferenceId: Int32,
    title: Option<string>,
    sessionAbstract: Option<string>,
    startTime: Option<DateTimeOffset>,
    endTime: Option<DateTimeOffset>,
    trackId: Option<Int32>,
    track: Option<Track>,
    sessionSpeakers: Option<seq<SessionSpeaker>>,
    sessionTags: Option<seq<SessionTag>>)

  datatype Track = Track(name: Option<string>)

  /** `id` is not read by the mapper, which copies the join row's `TagID`;
      it is kept to relate that foreign key to the tag it names. */
  datatype Tag = Tag(id: Int32, name: Option<string>)

  /** Join row between a session and a tag. */
  datatype SessionTag = SessionTag(tagId: Int32, tag: Option<Tag>)

  datatype Speaker = Speaker(
    id: Int32,
    name: Option<string>,
    bio: Option<string>,
    webSite: Option<string>,
    sessionSpeakers: Option<seq<SessionSpeaker>>)

  /** Join row between a session and a speaker, navigable from either side. */
  datatype SessionSpeaker = SessionSpeaker(
    sessionId: Int32,
    session: Option<Session>,
    speakerId: Int32,
    speaker: Option<Speaker>)

  datatype Conference = Conference(name: Option<string>)

  datatype Attendee = Attendee(
    id: Int32,
    firstName: Option<string>,
    lastName: Option<string>,
    userName: Option<string>,
    sessionsAttendees: Option<seq<SessionAttendee>>,
    conferenceAttendees: Option<seq<ConferenceAttendee>>)

  /** Join row between an attendee and a session it attends. */
  datatype SessionAttendee = SessionAttendee(sessionId: Int32, session: Option<Session>)

  /** Join row between an attendee and a conference it is registered for. */
  datatype ConferenceAttendee = ConferenceAttendee(conferenceId: Int32, conference: Option<Conference>)
}
