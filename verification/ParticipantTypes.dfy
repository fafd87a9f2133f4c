/** The value types shared by the participant registry and the launch logic. */
module ParticipantTypes {

  /** A participant's seat or role. `None` is the "unassigned / not found" sentinel. */
  datatype ParticipantOrder = None | A | B | C | D | E | F

  /** A transport client identifier: a C# `ulong`. */
  type ClientId = x: int | 0 <= x < 0x1_0000_0000_0000_0000

  /** How a participant's avatar is spawned. Only the `NONE` sentinel is known here;
      every other value is opaque and only stored and returned. */
  datatype SpawnType = NONE | SpawnKind(code: nat)

  /** How a participant joins. Only the `SCREEN` sentinel is known here. */
  datatype JoinType = SCREEN | JoinKind(code: nat)
}
