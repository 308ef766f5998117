# Conference planner: entity-to-response mapping

A Dafny model of the BackEnd's entity-to-response mapper
(`BackEnd.Data.EntityExtensions` in the ASP.NET Core workshop's conference
planner). It turns a persisted `Session`, `Speaker` or `Attendee` into the
`SessionResponse`, `SpeakerResponse` or `AttendeeResponse` the API returns.
Each mapper copies the entity's scalar properties and flattens its
many-to-many join collections (session–tag, session–speaker,
attendee–session, attendee–conference) into lists of small DTOs with
`?.Select(...).ToList()`.

Files:

- `wrappers.dfy`: `Option`. `None` stands for a C# null.
- `system_types.dfy`: `Int32` and an opaque `DateTimeOffset`.
- `linq.dfy`: `rows?.Select(f).ToList()` as `SelectToList`, with its relational reading `Projects`.
- `entities.dfy`: the entity classes. Only the properties the mapper reads are included, plus the tag's own `ID`, which `TagsCarryJoinedTags` compares with the join row's `TagID`. An unloaded navigation is `None`.
- `conference_dto.dfy`: the response and DTO shapes. `New...` constants hold what `new T { }` gives before an initializer runs.
- `entity_extensions.dfy`: the three mappers, their preconditions, a relational description of each response, and the lemmas.

How the source is represented:

- Each C# string property is an `Option<string>`. That makes "left at its default (null)" something a contract can state.
- `int` is the `Int32` newtype. `int?` and `DateTimeOffset?` are `Option`s.
- An object initializer `new T { A = x, ... }` is written as the datatype update `NewT.(a := x, ...)`. The properties it does not assign keep the class's defaults.
- A response class that inherits from a DTO (`SessionResponse : SessionDto`) is written as one flat datatype, with the inherited properties first.
- Each mapper is a function with a precondition. The precondition is that every loaded join row has the navigation object the projection dereferences. In the source, a missing one throws a NullReferenceException.
- Each mapper's postcondition is a relational description of its result (`IsSessionResponseOf` and the others). A lemma shows the description is complete: the mapper's result is the only response that satisfies it.

Where the code and its surrounding documentation differ, the model follows the code:

- `AttendeeResponse.cs` declares `Conferences` and `Sessions` with element types `Conference` and `Session`. The mapper assigns lists of `ConferenceDto` and `SessionDto` to them (`EntityExtensions.cs` lines 68-85). The model gives `AttendeeResponse` the DTO element types.
- `SessionResponse.cs` initialises `Speakers` and `Tags` to empty lists. The mapper overwrites them with null when the session's join collection is null. For the session mapper the model states this outright (`UnloadedJoinsOverwriteEmptyDefaults`). The speaker and attendee mappers do the same with their lists. For them it follows from the null-exactly-when-null clause of their postconditions, read against the empty-list defaults in `NewSpeakerResponse` and `NewAttendeeResponse`.
- A tag entry's `ID` is the join row's foreign key `TagID`, not the joined tag's own `ID`. The two agree only when the join row is consistent (`TagsCarryJoinedTags`).
- `Track.Name` is null, not empty, when no track is loaded.
- `TrackID` is read as `session?.TrackId ?? 0`. The `?.` on `session` has no effect, because `session.ID` has already been read. The model takes the session as always present.
- The C# source of the entity classes, `SessionDto`, `SpeakerDto` and `AttendeeDto` is not available. `AttendeeResponse` inherits ID, FirstName, LastName and UserName from `AttendeeDto`. The model still has datatypes for them (`entities.dfy`, `conference_dto.dfy`), with properties inferred from what the mapper reads and writes. `StartTime`, `EndTime` and `TrackId` are taken to be nullable (`DateTimeOffset?`, `int?`).

## Model

| member | source | states |
|---|---|---|
| `Linq.Select` | save-points/2b-BackEnd-completed/ConferencePlanner/BackEnd/Infrastructure/EntityExtensions.cs:21-26 | `Select(...).ToList()` yields one element per source element, same length and order, element i the projection of source element i |
| `Linq.SelectToList` | save-points/2b-BackEnd-completed/ConferencePlanner/BackEnd/Infrastructure/EntityExtensions.cs:20-26 | `?.Select(...).ToList()` is null exactly when the collection is null; otherwise as `Select` |
| `EntityExtensions.MapSessionResponse` | save-points/2b-BackEnd-completed/ConferencePlanner/BackEnd/Infrastructure/EntityExtensions.cs:13-42 | requires every loaded tag row to have its `Tag` and every loaded speaker row its `Speaker`; ID, Title, StartTime, EndTime, TrackId, ConferenceID and Abstract are copied; `Tags` is null iff `SessionTags` is, else entry i is `{TagID, Tag.Name}` of row i; `Speakers` likewise `{SpeakerId, Speaker.Name}` with Bio and WebSite null; `Track` is never null, its `TrackID` is `TrackId` or 0, its `Name` is the loaded track's name or null, its `ConferenceID` 0 |
| `EntityExtensions.MapSessionResponseCharacterised` | save-points/2b-BackEnd-completed/ConferencePlanner/BackEnd/Infrastructure/EntityExtensions.cs:13-42 | a response satisfies the session description if and only if it is the mapper's result |
| `EntityExtensions.UnloadedJoinsOverwriteEmptyDefaults` | save-points/2b-BackEnd-completed/ConferencePlanner/BackEnd/Infrastructure/EntityExtensions.cs:20-33 | `Tags`/`Speakers` default to empty lists, yet an unloaded join collection yields null for both |
| `EntityExtensions.SessionWithoutTrack` | save-points/2b-BackEnd-completed/ConferencePlanner/BackEnd/Infrastructure/EntityExtensions.cs:35-39 | with no `TrackId` and no loaded track the nested track is `{TrackID 0, ConferenceID 0, Name null}` |
| `EntityExtensions.TagsCarryJoinedTags` | save-points/2b-BackEnd-completed/ConferencePlanner/BackEnd/Infrastructure/EntityExtensions.cs:20-26 | when each row's `TagID` equals its tag's `ID`, each tag entry is exactly that tag's identifier and name |
| `EntityExtensions.MapSpeakerResponse` | save-points/2b-BackEnd-completed/ConferencePlanner/BackEnd/Infrastructure/EntityExtensions.cs:44-59 | requires every loaded speaker row to have its `Session`; ID, Name, Bio, WebSite are copied; `Sessions` is null iff `SessionSpeakers` is, else entry i is `{SessionId, Session.Title}` of row i with every other session property at its default |
| `EntityExtensions.MapSpeakerResponseCharacterised` | save-points/2b-BackEnd-completed/ConferencePlanner/BackEnd/Infrastructure/EntityExtensions.cs:44-59 | a response satisfies the speaker description if and only if it is the mapper's result |
| `EntityExtensions.SpeakerWithoutSessions` | save-points/2b-BackEnd-completed/ConferencePlanner/BackEnd/Infrastructure/EntityExtensions.cs:51-58 | a loaded but empty session-join collection gives an empty `Sessions` list, not null |
| `EntityExtensions.MapAttendeeResponse` | save-points/2b-BackEnd-completed/ConferencePlanner/BackEnd/Infrastructure/EntityExtensions.cs:61-86 | requires every loaded session row to have its `Session` and every conference row its `Conference`; ID, FirstName, LastName, UserName are copied; `Sessions` is null iff `SessionsAttendees` is, else entry i is `{SessionID, Title, StartTime, EndTime}` of row i; `Conferences` is null iff `ConferenceAttendees` is, else entry i is `{ConferenceID, Conference.Name}` of row i |
| `EntityExtensions.MapAttendeeResponseCharacterised` | save-points/2b-BackEnd-completed/ConferencePlanner/BackEnd/Infrastructure/EntityExtensions.cs:61-86 | a response satisfies the attendee description if and only if it is the mapper's result |
| `EntityExtensions.AppendedConferenceRowAppendsEntry` | save-points/2b-BackEnd-completed/ConferencePlanner/BackEnd/Infrastructure/EntityExtensions.cs:78-85 | appending a conference row appends exactly that conference's entry to `Conferences`, earlier entries unchanged |

## Left out

- Data-annotation validation (`[Required]`, `[StringLength(200)]`, `[StringLength(32)]` on the DTOs) is not modelled. The ASP.NET validation layer enforces it, not the mapper.
- `ConferenceResponse` and `TrackResponse` have no mapper, so their shapes are not modelled.
- Entity Framework loading and lazy loading are not modelled. "Loaded or not" is only the `Option` on each navigation property.
- The NullReferenceException a missing navigation object or a null join row would raise is not modelled. Join collections are sequences of non-null rows. The mappers' preconditions exclude it instead.
- JSON serialization, HTTP and the rest of the BackEnd are not modelled.
- String and `DateTimeOffset` contents are opaque. The model only copies them and compares them for equality.
- Purity has no lemma of its own. The mappers are Dafny functions over immutable values. They cannot change their argument, and their result shares no mutable state with it. Object identity, and the fact that each call allocates fresh lists, are not modelled.
- Cyclic entity graphs are not modelled. A session's speaker row navigates back to a session, and here every loaded graph is a finite tree.
