/**
 * The session record and its storage slot (src/hooks/useRoomData.ts): the
 * record written under "dualview-room", and the hook that reads it back when
 * a presenter page opens.
 */
module RoomData {
  import opened Wrappers

  /** The session record; `null` file fields are `None`. */
  datatype Room = Room(code: string, isHost: bool, fileUrl: Option<string>, fileName: Option<string>)

  /**
   * What a read of the slot finds: nothing (or an empty string, which both
   * readers treat alike), text that JSON parsing rejects, or a parsed record.
   */
  datatype Stored = Absent | Corrupt | Json(room: Room)

  const RoomKey := "dualview-room"
  const CreateRoomPath := "/create-room"

  /** The browser-scoped storage slot under `RoomKey`. */
  class RoomSlot {
    var value: Stored

    constructor (initial: Stored)
      ensures value == initial
    {
      value := initial;
    }
  }

  /** The `useRoomData` hook's state. */
  class RoomDataHook {
    var roomData: Option<Room>
    var isLoading: bool

    constructor ()
      ensures roomData == None && isLoading
    {
      roomData, isLoading := None, true;
    }

    /**
     * The effect: a parsed record becomes `roomData` with no redirect; an
     * absent or corrupt value redirects to room creation and leaves
     * `roomData` as it was. Loading ends in all three cases.
     */
    method RunEffect(slot: RoomSlot) returns (redirect: Option<string>)
      modifies this
      ensures !isLoading
      ensures slot.value.Json? ==> roomData == Some(slot.value.room) && redirect == None
      ensures slot.value.Absent? ==> roomData == old(roomData) && redirect == Some(CreateRoomPath)
      ensures slot.value.Corrupt? ==> roomData == old(roomData) && redirect == Some(CreateRoomPath)
    {
      redirect := None;
      match slot.value {
        case Json(room) => roomData := Some(room);
        case Corrupt => redirect := Some(CreateRoomPath);
        case Absent => redirect := Some(CreateRoomPath);
      }
      isLoading := false;
    }
  }

  /**
   * A freshly mounted hook reading the slot: the record when one parses,
   * otherwise no record and a redirect to room creation.
   */
  method ReadRoom(slot: RoomSlot) returns (room: Option<Room>, redirect: Option<string>, loading: bool)
    ensures !loading
    ensures room.Some? <==> slot.value.Json?
    ensures room.Some? ==> room.value == slot.value.room && redirect == None
    ensures room.None? ==> redirect == Some(CreateRoomPath)
  {
    var hook := new RoomDataHook();
    redirect := hook.RunEffect(slot);
    room, loading := hook.roomData, hook.isLoading;
  }
}
