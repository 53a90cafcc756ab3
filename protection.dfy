/**
  Page protections of the Windows memory manager (the PAGE_* constants) and
  the transition tables that MakeWritable, MakeReadable, MakeExecutable,
  RemoveWritable, RemoveReadable and RemoveExecutable apply before they call
  VirtualProtect, and CreateVirtualFlags, which builds a protection from three
  access rights.

  VirtualQuery and VirtualProtect are operating-system calls: their results
  are parameters here (the protection the query reported, or None when the
  query failed, and whether VirtualProtect succeeded).
 */
module PageProtection {
  import opened Words

  const PAGE_NOACCESS: u32 := 0x01
  const PAGE_READONLY: u32 := 0x02
  const PAGE_READWRITE: u32 := 0x04
  const PAGE_WRITECOPY: u32 := 0x08
  const PAGE_EXECUTE: u32 := 0x10
  const PAGE_EXECUTE_READ: u32 := 0x20
  const PAGE_EXECUTE_READWRITE: u32 := 0x40
  const PAGE_EXECUTE_WRITECOPY: u32 := 0x80

  /** The access rights a protection grants. */
  datatype Rights = Rights(execute: bool, read: bool, write: bool)

  /** The rights of the six protections the tables and CreateVirtualFlags use;
      None for every other value (copy-on-write, guard or caching modifiers, ...). */
  function RightsOf(p: u32): Option<Rights>
  {
    if p == PAGE_NOACCESS then Some(Rights(false, false, false))
    else if p == PAGE_READONLY then Some(Rights(false, true, false))
    else if p == PAGE_READWRITE then Some(Rights(false, true, true))
    else if p == PAGE_EXECUTE then Some(Rights(true, false, false))
    else if p == PAGE_EXECUTE_READ then Some(Rights(true, true, false))
    else if p == PAGE_EXECUTE_READWRITE then Some(Rights(true, true, true))
    else None
  }

  /** CreateVirtualFlags: the protection for the requested rights. Write access
      is granted only together with read access; a writable but unreadable
      request gets no write access at all. */
  function CreateVirtualFlags(executable: bool, readable: bool, writable: bool): (p: u32)
    ensures RightsOf(p) == Some(Rights(executable, readable, readable && writable))
    ensures writable && !readable ==> p == (if executable then PAGE_EXECUTE else PAGE_NOACCESS)
  {
    if executable then
      if readable && writable then PAGE_EXECUTE_READWRITE
      else if readable && !writable then PAGE_EXECUTE_READ
      else PAGE_EXECUTE
    else
      if readable && writable then PAGE_READWRITE
      else if readable && !writable then PAGE_READONLY
      else PAGE_NOACCESS
  }

  /** Every protection with known rights is the one CreateVirtualFlags builds from them. */
  lemma RightsRoundTrip(p: u32)
    requires RightsOf(p).Some?
    ensures var r := RightsOf(p).value;
            CreateVirtualFlags(r.execute, r.read, r.write) == p
  {
  }

  // The six switch statements. A protection the switch does not list is kept.

  function WritableTarget(p: u32): u32
  {
    if p == PAGE_EXECUTE || p == PAGE_EXECUTE_READ then PAGE_EXECUTE_READWRITE
    else if p == PAGE_READONLY || p == PAGE_NOACCESS then PAGE_READWRITE
    else p
  }

  function ReadableTarget(p: u32): u32
  {
    if p == PAGE_EXECUTE then PAGE_EXECUTE_READ
    else if p == PAGE_NOACCESS then PAGE_READONLY
    else p
  }

  function ExecutableTarget(p: u32): u32
  {
    if p == PAGE_READONLY then PAGE_EXECUTE_READ
    else if p == PAGE_READWRITE then PAGE_EXECUTE_READWRITE
    else if p == PAGE_NOACCESS then PAGE_EXECUTE
    else p
  }

  function NonWritableTarget(p: u32): u32
  {
    if p == PAGE_READWRITE then PAGE_READONLY
    else if p == PAGE_EXECUTE_READWRITE then PAGE_EXECUTE_READ
    else p
  }

  function NonReadableTarget(p: u32): u32
  {
    if p == PAGE_READONLY || p == PAGE_READWRITE then PAGE_NOACCESS
    else if p == PAGE_EXECUTE_READ || p == PAGE_EXECUTE_READWRITE then PAGE_EXECUTE
    else p
  }

  function NonExecutableTarget(p: u32): u32
  {
    if p == PAGE_EXECUTE then PAGE_NOACCESS
    else if p == PAGE_EXECUTE_READ then PAGE_READONLY
    else if p == PAGE_EXECUTE_READWRITE then PAGE_READWRITE
    else p
  }

  /** What one Make* / Remove* call did: its return value and the protection
      it asked VirtualProtect for (None when it did not call VirtualProtect). */
  datatype Reprotect = Reprotect(result: bool, requested: Option<u32>)

  /** The common body of the six functions: query, look the protection up in
      the table, give up when the table keeps it, otherwise reprotect. */
  function Transition(query: Option<u32>, target: u32 -> u32, protectSucceeds: bool): (r: Reprotect)
    ensures r.requested.Some? <==> query.Some? && target(query.value) != query.value
    ensures r.requested.Some? ==> r.requested.value == target(query.value)
    ensures r.result <==> r.requested.Some? && protectSucceeds
  {
    match query
    case None => Reprotect(false, None)
    case Some(p) =>
      if target(p) == p then Reprotect(false, None)
      else Reprotect(protectSucceeds, Some(target(p)))
  }

  /** MakeWritable: EXECUTE and EXECUTE_READ become EXECUTE_READWRITE, READONLY
      and NOACCESS become READWRITE; any other protection gives false and no
      VirtualProtect call. */
  function MakeWritable(query: Option<u32>, protectSucceeds: bool): (r: Reprotect)
    ensures query.Some? && (query.value == PAGE_EXECUTE || query.value == PAGE_EXECUTE_READ)
            ==> r == Reprotect(protectSucceeds, Some(PAGE_EXECUTE_READWRITE))
    ensures query.Some? && (query.value == PAGE_READONLY || query.value == PAGE_NOACCESS)
            ==> r == Reprotect(protectSucceeds, Some(PAGE_READWRITE))
    ensures query.None? || query.value !in {PAGE_EXECUTE, PAGE_EXECUTE_READ, PAGE_READONLY, PAGE_NOACCESS}
            ==> r == Reprotect(false, None)
  {
    Transition(query, WritableTarget, protectSucceeds)
  }

  /** MakeReadable: EXECUTE becomes EXECUTE_READ, NOACCESS becomes READONLY. */
  function MakeReadable(query: Option<u32>, protectSucceeds: bool): (r: Reprotect)
    ensures query.Some? && query.value == PAGE_EXECUTE ==> r == Reprotect(protectSucceeds, Some(PAGE_EXECUTE_READ))
    ensures query.Some? && query.value == PAGE_NOACCESS ==> r == Reprotect(protectSucceeds, Some(PAGE_READONLY))
    ensures query.None? || query.value !in {PAGE_EXECUTE, PAGE_NOACCESS} ==> r == Reprotect(false, None)
  {
    Transition(query, ReadableTarget, protectSucceeds)
  }

  /** MakeExecutable: READONLY becomes EXECUTE_READ, READWRITE becomes
      EXECUTE_READWRITE, NOACCESS becomes EXECUTE. */
  function MakeExecutable(query: Option<u32>, protectSucceeds: bool): (r: Reprotect)
    ensures query.Some? && query.value == PAGE_READONLY ==> r == Reprotect(protectSucceeds, Some(PAGE_EXECUTE_READ))
    ensures query.Some? && query.value == PAGE_READWRITE ==> r == Reprotect(protectSucceeds, Some(PAGE_EXECUTE_READWRITE))
    ensures query.Some? && query.value == PAGE_NOACCESS ==> r == Reprotect(protectSucceeds, Some(PAGE_EXECUTE))
    ensures query.None? || query.value !in {PAGE_READONLY, PAGE_READWRITE, PAGE_NOACCESS} ==> r == Reprotect(false, None)
  {
    Transition(query, ExecutableTarget, protectSucceeds)
  }

  /** RemoveWritable: READWRITE becomes READONLY, EXECUTE_READWRITE becomes EXECUTE_READ. */
  function RemoveWritable(query: Option<u32>, protectSucceeds: bool): (r: Reprotect)
    ensures query.Some? && query.value == PAGE_READWRITE ==> r == Reprotect(protectSucceeds, Some(PAGE_READONLY))
    ensures query.Some? && query.value == PAGE_EXECUTE_READWRITE ==> r == Reprotect(protectSucceeds, Some(PAGE_EXECUTE_READ))
    ensures query.None? || query.value !in {PAGE_READWRITE, PAGE_EXECUTE_READWRITE} ==> r == Reprotect(false, None)
  {
    Transition(query, NonWritableTarget, protectSucceeds)
  }

  /** RemoveReadable: READONLY and READWRITE become NOACCESS, EXECUTE_READ and
      EXECUTE_READWRITE become EXECUTE (the write right goes with the read right). */
  function RemoveReadable(query: Option<u32>, protectSucceeds: bool): (r: Reprotect)
    ensures query.Some? && (query.value == PAGE_READONLY || query.value == PAGE_READWRITE)
            ==> r == Reprotect(protectSucceeds, Some(PAGE_NOACCESS))
    ensures query.Some? && (query.value == PAGE_EXECUTE_READ || query.value == PAGE_EXECUTE_READWRITE)
            ==> r == Reprotect(protectSucceeds, Some(PAGE_EXECUTE))
    ensures query.None? || query.value !in {PAGE_READONLY, PAGE_READWRITE, PAGE_EXECUTE_READ, PAGE_EXECUTE_READWRITE}
            ==> r == Reprotect(false, None)
  {
    Transition(query, NonReadableTarget, protectSucceeds)
  }

  /** RemoveExecutable: EXECUTE becomes NOACCESS, EXECUTE_READ becomes READONLY,
      EXECUTE_READWRITE becomes READWRITE. */
  function RemoveExecutable(query: Option<u32>, protectSucceeds: bool): (r: Reprotect)
    ensures query.Some? && query.value == PAGE_EXECUTE ==> r == Reprotect(protectSucceeds, Some(PAGE_NOACCESS))
    ensures query.Some? && query.value == PAGE_EXECUTE_READ ==> r == Reprotect(protectSucceeds, Some(PAGE_READONLY))
    ensures query.Some? && query.value == PAGE_EXECUTE_READWRITE ==> r == Reprotect(protectSucceeds, Some(PAGE_READWRITE))
    ensures query.None? || query.value !in {PAGE_EXECUTE, PAGE_EXECUTE_READ, PAGE_EXECUTE_READWRITE} ==> r == Reprotect(false, None)
  {
    Transition(query, NonExecutableTarget, protectSucceeds)
  }

  /** The six tables in terms of rights: each one changes exactly one right of
      a protection that lacks (or has) it, except that MakeWritable also grants
      read and RemoveReadable also takes write, because CreateVirtualFlags never
      builds a writable protection without read. */
  lemma TablesAsRights(p: u32)
    requires RightsOf(p).Some?
    ensures var r := RightsOf(p).value;
      && WritableTarget(p) == (if r.write then p else CreateVirtualFlags(r.execute, true, true))
      && ReadableTarget(p) == (if r.read then p else CreateVirtualFlags(r.execute, true, false))
      && ExecutableTarget(p) == (if r.execute then p else CreateVirtualFlags(true, r.read, r.write))
      && NonWritableTarget(p) == (if r.write then CreateVirtualFlags(r.execute, r.read, false) else p)
      && NonReadableTarget(p) == (if r.read then CreateVirtualFlags(r.execute, false, false) else p)
      && NonExecutableTarget(p) == (if r.execute then CreateVirtualFlags(false, r.read, r.write) else p)
  {
  }

  /** RemoveExecutable undoes MakeExecutable on READONLY, READWRITE and NOACCESS,
      and MakeExecutable undoes RemoveExecutable on the three executable protections. */
  lemma ExecutableInverse(p: u32, ok1: bool, ok2: bool)
    ensures p in {PAGE_READONLY, PAGE_READWRITE, PAGE_NOACCESS} ==>
      var made := MakeExecutable(Some(p), ok1);
      made.requested.Some? && RemoveExecutable(made.requested, ok2).requested == Some(p)
    ensures p in {PAGE_EXECUTE, PAGE_EXECUTE_READ, PAGE_EXECUTE_READWRITE} ==>
      var removed := RemoveExecutable(Some(p), ok1);
      removed.requested.Some? && MakeExecutable(removed.requested, ok2).requested == Some(p)
  {
  }

  /** RemoveReadable undoes MakeReadable on EXECUTE and NOACCESS. It does not
      undo it on the other protections MakeReadable leaves alone: RemoveReadable
      of READWRITE is NOACCESS. */
  lemma ReadableInverse(p: u32, ok1: bool, ok2: bool)
    ensures p in {PAGE_EXECUTE, PAGE_NOACCESS} ==>
      var made := MakeReadable(Some(p), ok1);
      made.requested.Some? && RemoveReadable(made.requested, ok2).requested == Some(p)
    ensures MakeReadable(RemoveReadable(Some(PAGE_READWRITE), ok1).requested, ok2).requested == Some(PAGE_READONLY)
  {
  }

  /** RemoveWritable undoes MakeWritable only on EXECUTE_READ and READONLY:
      MakeWritable of EXECUTE or NOACCESS also grants read access. */
  lemma WritableInverse(p: u32, ok1: bool, ok2: bool)
    ensures p in {PAGE_EXECUTE_READ, PAGE_READONLY} ==>
      var made := MakeWritable(Some(p), ok1);
      made.requested.Some? && RemoveWritable(made.requested, ok2).requested == Some(p)
    ensures p in {PAGE_EXECUTE, PAGE_NOACCESS} ==>
      var made := MakeWritable(Some(p), ok1);
      made.requested.Some? && RemoveWritable(made.requested, ok2).requested != Some(p)
  {
  }
}
