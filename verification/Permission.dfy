/** Mode bits and the access check. */
module Permission {
  import opened Errors

  type Mode = bv16

  const S_IFSOCK: Mode := 0xC000
  const S_IFLNK: Mode := 0xA000
  const S_IFREG: Mode := 0x8000
  const S_IFBLK: Mode := 0x6000
  const S_IFDIR: Mode := 0x4000
  const S_IFCHR: Mode := 0x2000
  const S_IFIFO: Mode := 0x1000
  const S_ISUID: Mode := 0x0800
  const S_ISGID: Mode := 0x0400
  const S_ISVTX: Mode := 0x0200
  const S_IXGRP: Mode := 0x0008

  /** 0o777 */
  const PERM_BITS: Mode := 0x01FF

  const ACCESS_W_OK: Mode := 2

  /** bitflags' `contains` */
  predicate Contains(mode: Mode, flag: Mode) { mode & flag == flag }

  /** bitflags' `-=` */
  function Without(mode: Mode, flag: Mode): Mode { mode & !flag }

  /** Each permission that the class bits grant is subtracted from the mask; what is left over was refused. */
  function CheckoutAccess(ownerUid: nat, ownerGid: nat, mode: Mode, uid: nat, gid: nat, mask: Mode): (ok: bool)
    ensures uid == 0 && mask & 1 == 0 ==> ok
  {
    if mask == 0 then true
    else if uid == 0 then
      var m0 := mask & 1;
      var m1 := m0 - (m0 & (mode >> 6));
      var m2 := m1 - (m1 & (mode >> 3));
      var m3 := m2 - (m2 & mode);
      m3 == 0
    else
      var granted := if ownerUid == uid then mode >> 6 else if ownerGid == gid then mode >> 3 else mode;
      mask - (mask & granted) == 0
  }

  /** The requester's file class as POSIX.1-2017 XBD section 4.5 picks it: owner, else group, else others. */
  datatype Class = Owner | Group | Others

  function ClassOf(ownerUid: nat, ownerGid: nat, uid: nat, gid: nat): Class {
    if uid == ownerUid then Owner else if gid == ownerGid then Group else Others
  }

  /** 0o200, 0o020 and 0o002 */
  function WriteBit(c: Class): Mode {
    match c case Owner => 0x0080 case Group => 0x0010 case Others => 0x0002
  }

  /** The r, w and x bits of a class, as a number from 0 to 7. */
  function ClassBits(mode: Mode, c: Class): Mode {
    match c
    case Owner => (mode & 0x01C0) >> 6
    case Group => (mode & 0x0038) >> 3
    case Others => mode & 0x0007
  }

  predicate MayWrite(ownerUid: nat, ownerGid: nat, mode: Mode, uid: nat, gid: nat) {
    uid == 0 || mode & WriteBit(ClassOf(ownerUid, ownerGid, uid, gid)) != 0
  }

  /** A request for any of r, w and x is granted exactly when the class bits hold all of them; root is refused only the
      execution of something nobody may execute. The check does not know directories: where XBD section 4.5 lets root
      search any of them, it asks for an x bit there too. */
  lemma AccessIsClassBits(ownerUid: nat, ownerGid: nat, mode: Mode, uid: nat, gid: nat, mask: Mode)
    requires mask <= 7
    ensures CheckoutAccess(ownerUid, ownerGid, mode, uid, gid, mask) <==>
            if uid == 0 then mask & 1 == 0 || mode & 0x0049 != 0
            else mask & ClassBits(mode, ClassOf(ownerUid, ownerGid, uid, gid)) == mask
    ensures ClassBits(mode, ClassOf(ownerUid, ownerGid, uid, gid)) ==
            if uid == ownerUid then (mode >> 6) & 7 else if gid == ownerGid then (mode >> 3) & 7 else mode & 7
  {
  }

  /** The write check of every directory operation. It masks the mode with 0o777 first, which changes nothing. */
  lemma WriteAccess(ownerUid: nat, ownerGid: nat, mode: Mode, uid: nat, gid: nat)
    ensures CheckoutAccess(ownerUid, ownerGid, mode & PERM_BITS, uid, gid, ACCESS_W_OK)
       <==> MayWrite(ownerUid, ownerGid, mode, uid, gid)
    ensures CheckoutAccess(ownerUid, ownerGid, mode, uid, gid, ACCESS_W_OK)
       <==> MayWrite(ownerUid, ownerGid, mode, uid, gid)
    ensures MayWrite(ownerUid, ownerGid, mode, uid, gid) <==>
            || uid == 0
            || if uid == ownerUid then mode & 0x0080 != 0
               else if gid == ownerGid then mode & 0x0010 != 0 else mode & 0x0002 != 0
  {
  }

  // ---------- file kinds ----------

  datatype FileKind = NamedPipe | CharDevice | BlockDevice | Directory | RegularFile | Symlink | Socket

  /** The kind that a mode's bits stand for. Codes that hold others are asked for first; no code panics. */
  function KindOf(mode: Mode): Option<FileKind> {
    if Contains(mode, S_IFSOCK) then Some(Socket)
    else if Contains(mode, S_IFLNK) then Some(Symlink)
    else if Contains(mode, S_IFREG) then Some(RegularFile)
    else if Contains(mode, S_IFBLK) then Some(BlockDevice)
    else if Contains(mode, S_IFDIR) then Some(Directory)
    else if Contains(mode, S_IFCHR) then Some(CharDevice)
    else if Contains(mode, S_IFIFO) then Some(NamedPipe)
    else None
  }

  function TypeCode(kind: FileKind): Mode {
    match kind
    case Socket => S_IFSOCK
    case Symlink => S_IFLNK
    case RegularFile => S_IFREG
    case BlockDevice => S_IFBLK
    case Directory => S_IFDIR
    case CharDevice => S_IFCHR
    case NamedPipe => S_IFIFO
  }

  /** Each of the seven type codes is told apart from the others, whatever the permission bits are. */
  lemma KindDecodes(kind: FileKind, perm: Mode)
    requires perm <= 0x0FFF
    ensures KindOf(TypeCode(kind) | perm) == Some(kind)
  {
    assert perm & 0xF000 == 0;
  }

  /** All sixteen type codes, bit by bit: which kind each of them, those of no kind of file included, is taken for. */
  lemma KindBits(mode: Mode)
    ensures KindOf(mode) == None <==> mode & 0xF000 == 0
    ensures KindOf(mode) == Some(Socket) <==> mode & 0xC000 == 0xC000
    ensures KindOf(mode) == Some(Symlink) <==> mode & 0xE000 == 0xA000
    ensures KindOf(mode) == Some(RegularFile) <==> mode & 0xE000 == 0x8000
    ensures KindOf(mode) == Some(BlockDevice) <==> mode & 0xE000 == 0x6000
    ensures KindOf(mode) == Some(Directory) <==> mode & 0xE000 == 0x4000
    ensures KindOf(mode) == Some(CharDevice) <==> mode & 0xE000 == 0x2000
    ensures KindOf(mode) == Some(NamedPipe) <==> mode & 0xF000 == 0x1000
  {
  }

  // ---------- set-id bits ----------

  function ClearSuidSgid(mode: Mode): Mode {
    var m := Without(mode, S_ISUID);
    if Contains(m, S_IXGRP) then Without(m, S_ISGID) else m
  }

  /** What a truncate leaves of a mode: the set-user-id bit goes, the set-group-id bit stays exactly if the group may
      not execute, and every other bit is as it was. */
  lemma ClearedBits(mode: Mode)
    ensures ClearSuidSgid(mode) & 0x0800 == 0
    ensures ClearSuidSgid(mode) & 0x0400 == if mode & 0x0008 == 0 then mode & 0x0400 else 0
    ensures ClearSuidSgid(mode) & 0xF3FF == mode & 0xF3FF
  {
  }
}
