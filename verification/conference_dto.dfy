/** The response shapes of the API (namespace `ConferenceDTO`). A C# class
    that extends another is written out flat, inherited properties first.
    Each `New...` constant is what `new T { }` yields before an object
    initializer assigns anything: 0 for an `int`, null for a reference or a
    `Nullable<T>`, and the empty list where the class initialises a
    collection property. */
module ConferenceDTO {
  import opened Wrappers
  import opened SystemTypes

  datatype TagDto = TagDto(id: Int32, name: Option<string>)

  const NewTagDto := TagDto(0, None)

  datatype TrackDto = TrackDto(trackId: Int32, conferenceId: Int32, name: Option<string>)

  const NewTrackDto := TrackDto(0, 0, None)

  datatype ConferenceDto = ConferenceDto(id: Int32, name: Option<string>)

  const NewConferenceDto := ConferenceDto(0, None)

  datatype SessionDto = SessionDto(
    id: Int32,
    conferenceId: Int32,
    title: Option<string>,
    sessionAbstract: Option<string>,
    startTime: Option<DateTimeOffset>,
    endTime: Option<DateTimeOffset>,
    trackId: Option<Int32>)

  const NewSessionDto := SessionDto(0, 0, None, None, None, None, None)

  datatype SpeakerDto = SpeakerDto(
    id: Int32,
    name: Option<string>,
    bio: Option<string>,
    webSite: Option<string>)

  const NewSpeakerDto := SpeakerDto(0, None, None, None)

  /** `SessionResponse : SessionDto` with a nested track and the speaker and
      tag lists. */
  datatype SessionResponse = SessionResponse(
    id: Int32,
    conferenceId: Int32,
    title: Option<string>,
    sessionAbstract: Option<string>,
    startTime: Option<DateTimeOffset>,
    endTime: Option<DateTimeOffset>,
    trackId: Option<Int32>,
    track: Option<TrackDto>,
    speakers: Option<seq<SpeakerDto>>,
    tags: Option<seq<TagDto>>)

  /** `Track` starts null; `Speakers` and `Tags` start as empty lists. */
  const NewSessionResponse := SessionResponse(0, 0, None, None, None, None, None, None, Some([]), Some([]))

  /** `SpeakerResponse : SpeakerDto` with the speaker's sessions. */
  datatype SpeakerResponse = SpeakerResponse(
    id: Int32,
    name: Option<string>,
    bio: Option<string>,
    webSite: Option<string>,
    sessions: Option<seq<SessionDto>>)

  const NewSpeakerResponse := SpeakerResponse(0, None, None, None, Some([]))

  /** `AttendeeResponse : AttendeeDto` with the attendee's conferences and
      sessions, as the DTO lists the mapper assigns to them. */
  datatype AttendeeResponse = AttendeeResponse(
    id: Int32,
    firstName: Option<string>,
    lastName: Option<string>,
    userName: Option<string>,
    conferences: Option<seq<ConferenceDto>>,
    sessions: Option<seq<SessionDto>>)

  const NewAttendeeResponse := AttendeeResponse(0, None, None, None, Some([]), Some([]))
}
