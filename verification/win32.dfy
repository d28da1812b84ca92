/** Win32 scalar types, the constants `w32_select` compares against, and the
    operating-system services it calls, which are modelled as fixed functions
    supplied by the caller. */
module Win32 {

  /** DWORD: an unsigned 32-bit integer. */
  type Dword = x: int | 0 <= x < 0x1_0000_0000

  /** LONG: a signed 32-bit integer (the field type of `struct timeval`). */
  type Long = x: int | -0x8000_0000 <= x < 0x8000_0000

  /** A pointer argument that may be NULL. */
  datatype Option<T> = None | Some(value: T)

  /** HANDLE: an opaque pointer-sized value. */
  type Handle = int

  const NULL: Handle := 0
  /** `(HANDLE)-1`, what `_get_osfhandle` yields for a descriptor that is not open. */
  const INVALID_HANDLE_VALUE: Handle := -1

  /** The wait duration meaning "never time out". */
  const INFINITE: Dword := 0xFFFF_FFFF

  /** The largest number of handles one `WaitForMultipleObjects` call accepts. */
  const MAXIMUM_WAIT_OBJECTS: nat := 64

  const WAIT_OBJECT_0: Dword := 0x0
  const WAIT_TIMEOUT: Dword := 0x102
  const WAIT_FAILED: Dword := 0xFFFF_FFFF

  const FILE_TYPE_DISK: Dword := 0x1
  const FILE_TYPE_CHAR: Dword := 0x2
  const FILE_TYPE_PIPE: Dword := 0x3

  /** The four operating-system calls `w32_select` makes, each fixed for the
      duration of one call:
      - `osfHandle(fd)`: `_get_osfhandle(fd)`;
      - `fileType(h)`: `GetFileType(h)`;
      - `waitMultiple(hs, ms)`: `WaitForMultipleObjects(|hs|, hs, FALSE, ms)`;
      - `waitOne(h)`: `WaitForSingleObject(h, 0)`. */
  datatype Os = Os(
    osfHandle: int -> Handle,
    fileType: Handle -> Dword,
    waitMultiple: (seq<Handle>, Dword) -> Dword,
    waitOne: Handle -> Dword)
}
