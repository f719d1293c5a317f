/** The column converter for SpaceType: enum constants are written by name, and
    on reading, a value that is not a constant name is mapped onto a constant by
    Portuguese and English keywords, falling back to OTHER. */
module SpaceTypeConverter {
  import opened Wrappers
  import opened Model

  /** SpaceType.name(). */
  function Name(t: SpaceType): string {
    match t
    case MeetingRoom => "MEETING_ROOM"
    case EventHall => "EVENT_HALL"
    case CoworkingSpace => "COWORKING_SPACE"
    case ConferenceRoom => "CONFERENCE_ROOM"
    case TrainingRoom => "TRAINING_ROOM"
    case Auditorium => "AUDITORIUM"
    case Other => "OTHER"
  }

  /** SpaceType.valueOf: the constant whose name is exactly `s`, case included;
      None where Java throws IllegalArgumentException. */
  function ValueOf(s: string): (r: Option<SpaceType>)
    ensures r.Some? ==> Name(r.value) == s
    ensures r.None? ==> forall t :: Name(t) != s
  {
    if s == "MEETING_ROOM" then Some(MeetingRoom)
    else if s == "EVENT_HALL" then Some(EventHall)
    else if s == "COWORKING_SPACE" then Some(CoworkingSpace)
    else if s == "CONFERENCE_ROOM" then Some(ConferenceRoom)
    else if s == "TRAINING_ROOM" then Some(TrainingRoom)
    else if s == "AUDITORIUM" then Some(Auditorium)
    else if s == "OTHER" then Some(Other)
    else None
  }

  /** Upper-casing of one character (ASCII letters only). */
  function UpperChar(c: char): char {
    if 'a' <= c <= 'z' then (c as int - 32) as char else c
  }

  /** String.toUpperCase(), restricted to ASCII letters. */
  function UpperCase(s: string): (u: string)
    ensures |u| == |s|
    ensures forall i :: 0 <= i < |s| ==> u[i] == UpperChar(s[i])
  {
    seq(|s|, i requires 0 <= i < |s| => UpperChar(s[i]))
  }

  predicate StartsWith(s: string, prefix: string) {
    |prefix| <= |s| && s[..|prefix|] == prefix
  }

  /** `keyword` occurs in `s` starting at index `i`. */
  predicate OccursAt(s: string, keyword: string, i: int) {
    0 <= i <= |s| - |keyword| && s[i..i + |keyword|] == keyword
  }

  /** String.contains: `keyword` occurs in `s` at some index. */
  predicate Contains(s: string, keyword: string) {
    exists i :: 0 <= i <= |s| && OccursAt(s, keyword, i)
  }

  /** The condition the fallback tests for the constant `t`: one of its
      keywords occurs in the upper-cased value. OTHER has no condition. */
  predicate GroupMatches(upper: string, t: SpaceType) {
    match t
    case MeetingRoom => Contains(upper, "SALA") || Contains(upper, "REUNIAO") || Contains(upper, "MEETING")
    case Auditorium => Contains(upper, "AUDITORIO") || Contains(upper, "AUDITORIUM")
    case CoworkingSpace => Contains(upper, "COWORKING") || Contains(upper, "COWORK")
    case TrainingRoom => Contains(upper, "TREINAMENTO") || Contains(upper, "TRAINING")
    case EventHall => Contains(upper, "EVENTO") || Contains(upper, "EVENT")
    case ConferenceRoom => Contains(upper, "CONFERENCIA") || Contains(upper, "CONFERENCE")
    case Other => false
  }

  /** The keyword fallback, tried in source order on the upper-cased value; the
      first group that matches decides. */
  function KeywordType(upper: string): SpaceType {
    if GroupMatches(upper, MeetingRoom) then MeetingRoom
    else if GroupMatches(upper, Auditorium) then Auditorium
    else if GroupMatches(upper, CoworkingSpace) then CoworkingSpace
    else if GroupMatches(upper, TrainingRoom) then TrainingRoom
    else if GroupMatches(upper, EventHall) then EventHall
    else if GroupMatches(upper, ConferenceRoom) then ConferenceRoom
    else Other
  }

  /** convertToEntityAttribute: null or empty reads as null; a constant name reads
      as that constant; anything else goes through the keyword fallback. */
  function ConvertToEntityAttribute(dbData: Option<string>): (attribute: Option<SpaceType>)
    ensures attribute.None? <==> dbData.None? || dbData.value == ""
    ensures dbData.Some? && ValueOf(dbData.value).Some? ==> attribute == ValueOf(dbData.value)
  {
    if dbData.None? || dbData.value == "" then None
    else match ValueOf(dbData.value)
      case Some(t) => Some(t)
      case None => Some(KeywordType(UpperCase(dbData.value)))
  }

  /** convertToDatabaseColumn: null stays null, a constant is stored by its name,
      and reading the column back gives the constant again. */
  function ConvertToDatabaseColumn(attribute: Option<SpaceType>): (column: Option<string>)
    ensures column.None? <==> attribute.None?
    ensures ConvertToEntityAttribute(column) == attribute
  {
    match attribute
    case None => None
    case Some(t) => Some(Name(t))
  }

  /** Two distinct constants have distinct names. */
  lemma NameInjective(t: SpaceType, t': SpaceType)
    requires Name(t) == Name(t')
    ensures t == t'
  {
  }

  /** Constant names are already upper case. */
  lemma NameIsUpperCase(t: SpaceType)
    ensures UpperCase(Name(t)) == Name(t)
  {
  }

  /** Every character of a contained keyword occurs in the string. */
  lemma ContainedCharsOccur(s: string, keyword: string)
    requires Contains(s, keyword)
    ensures forall j :: 0 <= j < |keyword| ==> keyword[j] in s
  {
    var i :| 0 <= i <= |s| && OccursAt(s, keyword, i);
    forall j | 0 <= j < |keyword| ensures keyword[j] in s {
      assert s[i + j] == keyword[j];
    }
  }

  /** A prefix is contained. */
  lemma PrefixIsContained(s: string, keyword: string)
    requires StartsWith(s, keyword)
    ensures Contains(s, keyword)
  {
    assert OccursAt(s, keyword, 0);
  }

  /** A keyword with a character the string lacks is not contained in it. */
  lemma MissingCharRulesOut(s: string, keyword: string, c: char)
    requires c in keyword && c !in s
    ensures !Contains(s, keyword)
  {
    if Contains(s, keyword) {
      ContainedCharsOccur(s, keyword);
    }
  }

  /** "MEETING_ROOM" holds the keyword "MEETING" of the first group. */
  lemma MeetingRoomName(n: string)
    requires n == "MEETING_ROOM"
    ensures KeywordType(n) == MeetingRoom
  {
    PrefixIsContained(n, "MEETING");
  }

  /** Characters that "AUDITORIUM" lacks. */
  lemma AuditoriumLacks(n: string)
    requires n == "AUDITORIUM"
    ensures 'S' !in n && 'E' !in n
  {
  }

  /** "AUDITORIUM" holds no keyword of the first group, then "AUDITORIUM". */
  lemma AuditoriumName(n: string)
    requires n == "AUDITORIUM"
    ensures KeywordType(n) == Auditorium
  {
    AuditoriumLacks(n);
    MissingCharRulesOut(n, "SALA", 'S');
    MissingCharRulesOut(n, "REUNIAO", 'E');
    MissingCharRulesOut(n, "MEETING", 'E');
    PrefixIsContained(n, "AUDITORIUM");
  }

  /** Characters that "COWORKING_SPACE" lacks. */
  lemma CoworkingSpaceLacks(n: string)
    requires n == "COWORKING_SPACE"
    ensures 'L' !in n && 'U' !in n && 'M' !in n
  {
  }

  /** "COWORKING_SPACE" holds no keyword of the first two groups, then "COWORKING". */
  lemma CoworkingSpaceName(n: string)
    requires n == "COWORKING_SPACE"
    ensures KeywordType(n) == CoworkingSpace
  {
    CoworkingSpaceLacks(n);
    MissingCharRulesOut(n, "SALA", 'L');
    MissingCharRulesOut(n, "REUNIAO", 'U');
    MissingCharRulesOut(n, "MEETING", 'M');
    MissingCharRulesOut(n, "AUDITORIO", 'U');
    MissingCharRulesOut(n, "AUDITORIUM", 'U');
    PrefixIsContained(n, "COWORKING");
  }

  /** Characters that "TRAINING_ROOM" lacks. */
  lemma TrainingRoomLacks(n: string)
    requires n == "TRAINING_ROOM"
    ensures 'S' !in n && 'E' !in n && 'U' !in n && 'C' !in n
  {
  }

  /** "TRAINING_ROOM" holds no keyword of the first three groups, then "TRAINING". */
  lemma TrainingRoomName(n: string)
    requires n == "TRAINING_ROOM"
    ensures KeywordType(n) == TrainingRoom
  {
    TrainingRoomLacks(n);
    MissingCharRulesOut(n, "SALA", 'S');
    MissingCharRulesOut(n, "REUNIAO", 'E');
    MissingCharRulesOut(n, "MEETING", 'E');
    MissingCharRulesOut(n, "AUDITORIO", 'U');
    MissingCharRulesOut(n, "AUDITORIUM", 'U');
    MissingCharRulesOut(n, "COWORKING", 'C');
    MissingCharRulesOut(n, "COWORK", 'C');
    MissingCharRulesOut(n, "TREINAMENTO", 'E');
    PrefixIsContained(n, "TRAINING");
  }

  /** Characters that "EVENT_HALL" lacks. */
  lemma EventHallLacks(n: string)
    requires n == "EVENT_HALL"
    ensures 'S' !in n && 'R' !in n && 'M' !in n && 'U' !in n && 'C' !in n
  {
  }

  /** "EVENT_HALL" holds no keyword of the first four groups, then "EVENT". */
  lemma EventHallName(n: string)
    requires n == "EVENT_HALL"
    ensures KeywordType(n) == EventHall
  {
    EventHallLacks(n);
    MissingCharRulesOut(n, "SALA", 'S');
    MissingCharRulesOut(n, "REUNIAO", 'R');
    MissingCharRulesOut(n, "MEETING", 'M');
    MissingCharRulesOut(n, "AUDITORIO", 'U');
    MissingCharRulesOut(n, "AUDITORIUM", 'U');
    MissingCharRulesOut(n, "COWORKING", 'C');
    MissingCharRulesOut(n, "COWORK", 'C');
    MissingCharRulesOut(n, "TREINAMENTO", 'R');
    MissingCharRulesOut(n, "TRAINING", 'R');
    PrefixIsContained(n, "EVENT");
  }

  /** Characters that "CONFERENCE_ROOM" lacks. */
  lemma ConferenceRoomLacks(n: string)
    requires n == "CONFERENCE_ROOM"
    ensures 'S' !in n && 'U' !in n && 'T' !in n && 'A' !in n && 'W' !in n && 'V' !in n
  {
  }

  /** "CONFERENCE_ROOM" holds no keyword of the first five groups, then "CONFERENCE". */
  lemma ConferenceRoomName(n: string)
    requires n == "CONFERENCE_ROOM"
    ensures KeywordType(n) == ConferenceRoom
  {
    ConferenceRoomLacks(n);
    MissingCharRulesOut(n, "SALA", 'S');
    MissingCharRulesOut(n, "REUNIAO", 'U');
    MissingCharRulesOut(n, "MEETING", 'T');
    MissingCharRulesOut(n, "AUDITORIO", 'A');
    MissingCharRulesOut(n, "AUDITORIUM", 'A');
    MissingCharRulesOut(n, "COWORKING", 'W');
    MissingCharRulesOut(n, "COWORK", 'W');
    MissingCharRulesOut(n, "TREINAMENTO", 'T');
    MissingCharRulesOut(n, "TRAINING", 'T');
    MissingCharRulesOut(n, "EVENTO", 'V');
    MissingCharRulesOut(n, "EVENT", 'V');
    PrefixIsContained(n, "CONFERENCE");
  }

  /** Characters that "OTHER" lacks. */
  lemma OtherLacks(n: string)
    requires n == "OTHER"
    ensures 'S' !in n && 'U' !in n && 'M' !in n && 'A' !in n && 'C' !in n && 'N' !in n && 'V' !in n
  {
  }

  /** "OTHER" holds no keyword at all. */
  lemma OtherName(n: string)
    requires n == "OTHER"
    ensures KeywordType(n) == Other
  {
    OtherLacks(n);
    MissingCharRulesOut(n, "SALA", 'S');
    MissingCharRulesOut(n, "REUNIAO", 'U');
    MissingCharRulesOut(n, "MEETING", 'M');
    MissingCharRulesOut(n, "AUDITORIO", 'A');
    MissingCharRulesOut(n, "AUDITORIUM", 'A');
    MissingCharRulesOut(n, "COWORKING", 'C');
    MissingCharRulesOut(n, "COWORK", 'C');
    MissingCharRulesOut(n, "TREINAMENTO", 'N');
    MissingCharRulesOut(n, "TRAINING", 'A');
    MissingCharRulesOut(n, "EVENTO", 'V');
    MissingCharRulesOut(n, "EVENT", 'V');
    MissingCharRulesOut(n, "CONFERENCIA", 'C');
    MissingCharRulesOut(n, "CONFERENCE", 'C');
  }

  /** The fallback reads every constant name back as that constant. */
  lemma KeywordTypeOfName(t: SpaceType)
    ensures KeywordType(Name(t)) == t
  {
    match t
    case MeetingRoom => MeetingRoomName(Name(t));
    case Auditorium => AuditoriumName(Name(t));
    case CoworkingSpace => CoworkingSpaceName(Name(t));
    case TrainingRoom => TrainingRoomName(Name(t));
    case EventHall => EventHallName(Name(t));
    case ConferenceRoom => ConferenceRoomName(Name(t));
    case Other => OtherName(Name(t));
  }

  /** Any non-empty value reads as some constant: the fallback ends in OTHER. */
  lemma NonEmptyIsTotal(s: string)
    requires s != ""
    ensures ConvertToEntityAttribute(Some(s)).Some?
  {
  }

  /** Matching is case-insensitive: a value whose upper-casing is a constant's
      name (for instance "event_hall") reads as that constant. */
  lemma CaseInsensitiveName(s: string, t: SpaceType)
    requires UpperCase(s) == Name(t)
    ensures ConvertToEntityAttribute(Some(s)) == Some(t)
  {
    assert s != "" by { assert |s| == |Name(t)| > 0; }
    match ValueOf(s)
    case Some(t') =>
      NameIsUpperCase(t');
      NameInjective(t, t');
    case None =>
      KeywordTypeOfName(t);
  }

  /** Two values that are not constant names and upper-case alike read alike. */
  lemma FallbackIgnoresCase(s: string, s': string)
    requires s != "" && s' != ""
    requires ValueOf(s).None? && ValueOf(s').None?
    requires UpperCase(s) == UpperCase(s')
    ensures ConvertToEntityAttribute(Some(s)) == ConvertToEntityAttribute(Some(s'))
  {
  }

  /** The keywords of each constant's group in the fallback; OTHER has none. */
  function Keywords(t: SpaceType): seq<string> {
    match t
    case MeetingRoom => ["SALA", "REUNIAO", "MEETING"]
    case Auditorium => ["AUDITORIO", "AUDITORIUM"]
    case CoworkingSpace => ["COWORKING", "COWORK"]
    case TrainingRoom => ["TREINAMENTO", "TRAINING"]
    case EventHall => ["EVENTO", "EVENT"]
    case ConferenceRoom => ["CONFERENCIA", "CONFERENCE"]
    case Other => []
  }

  /** The order in which the fallback tries the groups. */
  const GroupOrder: seq<SpaceType> :=
    [MeetingRoom, Auditorium, CoworkingSpace, TrainingRoom, EventHall, ConferenceRoom]

  /** `upper` contains some keyword of the group of `t`. */
  predicate HasKeyword(upper: string, t: SpaceType) {
    exists k :: k in Keywords(t) && Contains(upper, k)
  }

  /** No group has a keyword in `upper`. */
  predicate NoKeyword(upper: string) {
    forall j :: 0 <= j < |GroupOrder| ==> !HasKeyword(upper, GroupOrder[j])
  }

  /** Each constant's keyword list is exactly what the fallback tests for it. */
  lemma GroupConditions(upper: string, t: SpaceType)
    ensures HasKeyword(upper, t) <==> GroupMatches(upper, t)
  {
    if GroupMatches(upper, t) {
      match t
      case MeetingRoom =>
        if Contains(upper, "SALA") { assert "SALA" in Keywords(t); }
        else if Contains(upper, "REUNIAO") { assert "REUNIAO" in Keywords(t); }
        else { assert "MEETING" in Keywords(t); }
      case Auditorium =>
        if Contains(upper, "AUDITORIO") { assert "AUDITORIO" in Keywords(t); }
        else { assert "AUDITORIUM" in Keywords(t); }
      case CoworkingSpace =>
        if Contains(upper, "COWORKING") { assert "COWORKING" in Keywords(t); }
        else { assert "COWORK" in Keywords(t); }
      case TrainingRoom =>
        if Contains(upper, "TREINAMENTO") { assert "TREINAMENTO" in Keywords(t); }
        else { assert "TRAINING" in Keywords(t); }
      case EventHall =>
        if Contains(upper, "EVENTO") { assert "EVENTO" in Keywords(t); }
        else { assert "EVENT" in Keywords(t); }
      case ConferenceRoom =>
        if Contains(upper, "CONFERENCIA") { assert "CONFERENCIA" in Keywords(t); }
        else { assert "CONFERENCE" in Keywords(t); }
    }
  }

  /** The fallback answers the first group, in order, one of whose keywords the
      value contains: later groups cannot override it. */
  lemma KeywordPrecedence(upper: string, i: nat)
    requires i < |GroupOrder|
    requires HasKeyword(upper, GroupOrder[i])
    requires forall j :: 0 <= j < i ==> !HasKeyword(upper, GroupOrder[j])
    ensures KeywordType(upper) == GroupOrder[i]
  {
    forall j | 0 <= j <= i ensures HasKeyword(upper, GroupOrder[j]) <==> GroupMatches(upper, GroupOrder[j]) {
      GroupConditions(upper, GroupOrder[j]);
    }
    if i >= 1 { assert !GroupMatches(upper, GroupOrder[0]); }
    if i >= 2 { assert !GroupMatches(upper, GroupOrder[1]); }
    if i >= 3 { assert !GroupMatches(upper, GroupOrder[2]); }
    if i >= 4 { assert !GroupMatches(upper, GroupOrder[3]); }
    if i >= 5 { assert !GroupMatches(upper, GroupOrder[4]); }
    assert GroupMatches(upper, GroupOrder[i]);
  }

  /** The fallback answers OTHER exactly when no group has a keyword in the
      value. */
  lemma OtherIffNoKeyword(upper: string)
    ensures KeywordType(upper) == Other <==> NoKeyword(upper)
  {
    forall j | 0 <= j < |GroupOrder| ensures HasKeyword(upper, GroupOrder[j]) <==> GroupMatches(upper, GroupOrder[j]) {
      GroupConditions(upper, GroupOrder[j]);
    }
    if KeywordType(upper) != Other {
      var t := KeywordType(upper);
      assert GroupMatches(upper, t);
      assert t == GroupOrder[0] || t == GroupOrder[1] || t == GroupOrder[2]
        || t == GroupOrder[3] || t == GroupOrder[4] || t == GroupOrder[5];
    }
  }

  /** A value that is no constant name and contains a meeting-room keyword, in
      any case, reads as MEETING_ROOM, whatever other keywords it holds. */
  lemma MeetingKeywordsComeFirst(s: string)
    requires ValueOf(s).None?
    requires HasKeyword(UpperCase(s), MeetingRoom)
    ensures ConvertToEntityAttribute(Some(s)) == Some(MeetingRoom)
  {
    var k :| k in Keywords(MeetingRoom) && Contains(UpperCase(s), k);
    assert s != "" by {
      var i :| 0 <= i <= |UpperCase(s)| && OccursAt(UpperCase(s), k, i);
      assert |UpperCase(s)| >= |k| > 0;
    }
    KeywordPrecedence(UpperCase(s), 0);
  }

  /** "Sala de Treinamento" begins with the meeting keyword "SALA". */
  lemma SalaHoldsMeetingKeyword(n: string)
    requires n == "Sala de Treinamento"
    ensures HasKeyword(UpperCase(n), MeetingRoom)
  {
    var u := UpperCase(n);
    assert u[0] == 'S' && u[1] == 'A' && u[2] == 'L' && u[3] == 'A';
    assert u[..4] == "SALA";
    PrefixIsContained(u, "SALA");
    assert "SALA" in Keywords(MeetingRoom);
  }

  /** "Sala de Treinamento" ends with the training keyword "TREINAMENTO". */
  lemma SalaHoldsTrainingKeyword(n: string)
    requires n == "Sala de Treinamento"
    ensures HasKeyword(UpperCase(n), TrainingRoom)
  {
    var u := UpperCase(n);
    assert |u| == 19;
    assert u[8] == 'T' && u[9] == 'R' && u[10] == 'E' && u[11] == 'I' && u[12] == 'N' && u[13] == 'A';
    assert u[14] == 'M' && u[15] == 'E' && u[16] == 'N' && u[17] == 'T' && u[18] == 'O';
    assert u[8..19] == "TREINAMENTO";
    assert OccursAt(u, "TREINAMENTO", 8);
    assert "TREINAMENTO" in Keywords(TrainingRoom);
  }

  /** "Sala de Treinamento" holds both "SALA" and "TREINAMENTO", and reads as
      MEETING_ROOM. */
  lemma SalaDeTreinamentoIsMeetingRoom(n: string)
    requires n == "Sala de Treinamento"
    ensures HasKeyword(UpperCase(n), MeetingRoom) && HasKeyword(UpperCase(n), TrainingRoom)
    ensures ConvertToEntityAttribute(Some(n)) == Some(MeetingRoom)
  {
    assert ValueOf(n).None?;
    SalaHoldsMeetingKeyword(n);
    SalaHoldsTrainingKeyword(n);
    MeetingKeywordsComeFirst(n);
  }

  /** A non-empty value reads as OTHER exactly when it is the name "OTHER", or it
      is no constant name and holds no keyword of any group. */
  lemma UnknownIsOther(s: string)
    requires s != ""
    ensures ConvertToEntityAttribute(Some(s)) == Some(Other) <==>
      s == "OTHER" || (ValueOf(s).None? && NoKeyword(UpperCase(s)))
  {
    OtherIffNoKeyword(UpperCase(s));
  }
}
