/** Constants and value types of the wire protocol (common/wireformat.h). */
module Wire {
  type byte = b: int | 0 <= b < 256
  type word = w: int | 0 <= w < 0x10000

  datatype Option<+T> = None | Some(value: T)

  const FS_READ: byte := 7
  const FS_WRITE: byte := 8
  const FS_WRITE_EOF: byte := 9
  const FS_REPLY: byte := 10
  const FS_DATA: byte := 11
  const FS_DATA_EOF: byte := 12
  const FS_CLOSE: byte := 14
  const FS_SETOPT: byte := 23
  const FS_RESET: byte := 24
  const FS_SYNC: byte := 127

  // positions in a frame: command, total length, channel, first payload byte
  const FSP_CMD := 0
  const FSP_LEN := 1
  const FSP_FD := 2
  const FSP_DATA := 3

  // directory entries
  const FS_DIR_MOD_NAM: byte := 1
  const FS_DIR_MOD_NAS: byte := 4
  const FS_DIR_ATTR_ESTIMATE: byte := 0x10

  // file types in the name packet
  const FS_DIR_TYPE_SEQ: byte := 1
  const FS_DIR_TYPE_PRG: byte := 2
  const FS_DIR_TYPE_USR: byte := 3
  const FS_DIR_TYPE_REL: byte := 4
  const FS_DIR_TYPE_UNKNOWN: byte := 255

  // drive numbers in the name packet
  const NAMEINFO_UNUSED_DRIVE: byte := 0xff
  const NAMEINFO_UNDEF_DRIVE: byte := 0xfe
  const NAMEINFO_LAST_DRIVE: byte := 0xfd
}
