/** `ChatVariables.ChatLimits` (index.ts:127-132). Nothing in the code reads them. */
module ChatLimits {
  const MaxMessageTextSize: nat := 0xFA0
  const MaxUserCountInChat: nat := 0x2710
  const MaxSocketIOTimeout: nat := 0x2710
  const MaxUserChats: nat := 0x258

  lemma LimitValues()
    ensures MaxMessageTextSize == 4000
    ensures MaxUserCountInChat == 10000
    ensures MaxSocketIOTimeout == 10000
    ensures MaxUserChats == 600
  {
  }
}
