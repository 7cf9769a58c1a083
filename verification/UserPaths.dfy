/** Paths that system calls take by their address in the caller's space. */
module UserPaths {
  import opened Bytes
  import opened Paths
  import opened Process
  import A = AddressSpaces
  import I = InitialStack

  /** What a path argument at an address amounts to. */
  ghost predicate ReadsAs(space: A.AddressSpace, address: u64, path: Option<Str>)
    reads space, space.ram
  {
    match path
    case Some(s) =>
      if |s| < PATH_SIZE then I.StringAt(space.ram.mem, space.root, address, s)
      else A.Holds(space.ram.mem, space.root, address, s)
    case None => forall t: Str :: !I.StringAt(space.ram.mem, space.root, address, t)
  }

  /**
   `copy_user_path`: the string at the address, if it has between 1 and 255 bytes. Each error
   means that there is none, that it is empty, or that no shorter one than 256 bytes is there.
   */
  method CopyUserPath(space: A.AddressSpace, address: u64) returns (error: int, path: Option<Str>)
    requires space.Valid()
    ensures ReadsAs(space, address, path)
    ensures error == (if path.None? then -14 else if path.value == [] then -2
                      else if |path.value| > 255 then -36 else 0)
    ensures error == -36 ==> forall t: Str :: I.StringAt(space.ram.mem, space.root, address, t) ==> |t| > 255
  {
    hide I.StringAt, A.Holds, A.AddressSpace.Valid;
    var code, s := I.CopyUserString(space, address, PATH_SIZE);
    if code == I.ERR_FAULT {
      return EFAULT, None;
    }
    if code == I.ERR_2BIG {
      return ENAMETOOLONG, Some(s);
    }
    return if s == [] then ENOENT else 0, Some(s);
  }
}
