/**
 * The join form (src/components/fragments/join-form.tsx): the code input's
 * normalisation and the local-only check of a code against the stored
 * session record.
 */
module JoinForm {
  import opened Wrappers
  import RoomData

  const MaxCodeLength := 6
  const NotFoundNotice := "Room not found. Please check the code."

  /** `toUpperCase` on one character: ASCII lower-case letters only. */
  function UpperChar(c: char): char {
    if 'a' <= c <= 'z' then (c as int - 32) as char else c
  }

  function ToUpper(s: string): string {
    seq(|s|, k requires 0 <= k < |s| => UpperChar(s[k]))
  }

  predicate IsUpper(s: string) {
    forall k :: 0 <= k < |s| ==> !('a' <= s[k] <= 'z')
  }

  /**
   * The input's change handler: upper-case, then keep at most six
   * characters. The result is an upper-cased prefix of the input.
   */
  function Normalize(input: string): (r: string)
    ensures |r| == if |input| < MaxCodeLength then |input| else MaxCodeLength
    ensures IsUpper(r)
    ensures forall k :: 0 <= k < |r| ==> r[k] == UpperChar(input[k])
  {
    var upper := ToUpper(input);
    if |upper| <= MaxCodeLength then upper else upper[..MaxCodeLength]
  }

  /** Normalising an already normalised code changes nothing. */
  lemma NormalizeIdempotent(input: string)
    ensures Normalize(Normalize(input)) == Normalize(input)
  {
    var once := Normalize(input);
    assert forall k :: 0 <= k < |once| ==> UpperChar(once[k]) == once[k];
  }

  /** Normalisation does not restrict the characters to the code alphabet. */
  lemma NormalizeKeepsAmbiguousCharacters()
    ensures Normalize("o0i1") == "O0I1"
    ensures Normalize("ab23cd99") == "AB23CD"
  {
  }

  /** What pressing the join button leads to. */
  datatype JoinResult =
    | Ignored                    // the code is not six characters long
    | Joined(code: string)       // `onJoin` is called with this code
    | Alerted(notice: string)    // an alert is shown
    | ParseFailure               // `JSON.parse` throws on the stored text

  /** The join form's state. */
  class JoinFormState {
    var roomCode: string

    constructor ()
      ensures roomCode == ""
    {
      roomCode := "";
    }

    method OnChange(value: string)
      modifies this
      ensures roomCode == Normalize(value)
    {
      roomCode := Normalize(value);
    }

    /**
     * `handleJoin`: nothing unless the code has six characters; then a join
     * exactly when a stored record's code equals the upper-cased code, a
     * throw when the stored text does not parse, and the not-found alert
     * otherwise.
     */
    method HandleJoin(slot: RoomData.RoomSlot) returns (r: JoinResult)
      ensures |roomCode| != MaxCodeLength <==> r == Ignored
      ensures r.Joined? <==> |roomCode| == MaxCodeLength && slot.value.Json? && slot.value.room.code == ToUpper(roomCode)
      ensures r.Joined? ==> r.code == ToUpper(roomCode)
      ensures r.ParseFailure? <==> |roomCode| == MaxCodeLength && slot.value.Corrupt?
      ensures r.Alerted? ==> r.notice == NotFoundNotice
      ensures |roomCode| == MaxCodeLength && slot.value.Absent? ==> r == Alerted(NotFoundNotice)
    {
      r := Ignored;
      if |roomCode| == MaxCodeLength {
        match slot.value {
          case Absent => r := Alerted(NotFoundNotice);
          case Corrupt => r := ParseFailure;
          case Json(room) =>
            if room.code == ToUpper(roomCode) {
              r := Joined(ToUpper(roomCode));
            } else {
              r := Alerted(NotFoundNotice);
            }
        }
      }
    }
  }

  /** Typing a stored record's code in any letter case joins that room. */
  method JoinInAnyCase(room: RoomData.Room, typed: string) returns (r: JoinResult)
    requires |typed| == MaxCodeLength && ToUpper(typed) == room.code
    ensures r == Joined(room.code)
  {
    var slot := new RoomData.RoomSlot(RoomData.Json(room));
    var form := new JoinFormState();
    form.OnChange(typed);
    assert form.roomCode == room.code;
    NormalizeIdempotent(typed);
    assert ToUpper(form.roomCode) == room.code;
    r := form.HandleJoin(slot);
  }

  /**
   * With a stored record for code AB23CD, typing "ab23cd" joins as AB23CD and
   * typing "ZZZZZZ" gives the not-found alert.
   */
  method JoinByTypedCode() returns (lower: JoinResult, other: JoinResult)
    ensures lower == Joined("AB23CD")
    ensures other == Alerted(NotFoundNotice)
  {
    var slot := new RoomData.RoomSlot(RoomData.Json(RoomData.Room("AB23CD", true, None, None)));
    var form := new JoinFormState();
    form.OnChange("ab23cd");
    assert form.roomCode == "AB23CD";
    lower := form.HandleJoin(slot);
    form.OnChange("ZZZZZZ");
    assert form.roomCode == "ZZZZZZ";
    other := form.HandleJoin(slot);
  }
}
