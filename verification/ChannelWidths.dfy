/** The numbers of channel widths and of the places of the primary channel (include/rtw_rf.h). */
module ChannelWidths {

  const WIDTH_20 := 0
  const WIDTH_40 := 1
  const WIDTH_80 := 2

  const OFFSET_DONT_CARE := 0
  const OFFSET_LOWER := 1
  const OFFSET_UPPER := 2
}
