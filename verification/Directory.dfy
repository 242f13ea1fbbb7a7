/** The directory: a table of names, listed one after the other and searched by name. */
module Directory {
  import opened CStrings
  import opened Wrappers

  const MAX_DIR_ENTRIES: nat := 63
  const FILENAME_SIZE: nat := 32

  /** A name fills its 32 characters or ends with a NUL; an empty one marks a free slot. */
  datatype Entry = Entry(filename: seq<char>, inodeNum: nat)

  ghost predicate IsTable(entries: seq<Entry>) {
    |entries| == MAX_DIR_ENTRIES && forall i :: 0 <= i < MAX_DIR_ENTRIES ==> |entries[i].filename| == FILENAME_SIZE
  }

  function Name(e: Entry): string {
    UpToNul(e.filename)
  }

  /** The names from slot `at` on, without the free slots. */
  function NamesFrom(entries: seq<Entry>, at: nat): (names: seq<string>)
    ensures |names| <= if at < |entries| then |entries| - at else 0
    decreases |entries| - at
  {
    if at >= |entries| then []
    else if Name(entries[at]) == "" then NamesFrom(entries, at + 1)
    else [Name(entries[at])] + NamesFrom(entries, at + 1)
  }

  /** How many of the slots before `i` are used. */
  function UsedBefore(entries: seq<Entry>, i: nat): nat
    requires i <= |entries|
  {
    if i == 0 then 0 else UsedBefore(entries, i - 1) + if Name(entries[i - 1]) == "" then 0 else 1
  }

  lemma {:induction false} UsedOnly(entries: seq<Entry>, at: nat, i: nat)
    requires at <= i <= |entries|
    ensures UsedBefore(entries, at) <= UsedBefore(entries, i)
    ensures |NamesFrom(entries, at)| == UsedBefore(entries, |entries|) - UsedBefore(entries, at)
    ensures i < |entries| && Name(entries[i]) != "" ==>
              var r := UsedBefore(entries, i) - UsedBefore(entries, at);
              r < |NamesFrom(entries, at)| && NamesFrom(entries, at)[r] == Name(entries[i])
    decreases |entries| - at
  {
    hide Name;
    if at < |entries| {
      UsedOnly(entries, at + 1, if i == at then at + 1 else i);
    }
  }

  /** The directory lists as many names as there are used slots, and that of a used slot comes after those of all the
      used slots before it. */
  lemma ListsSlots(entries: seq<Entry>, i: nat)
    requires i < |entries| && Name(entries[i]) != ""
    ensures var names := NamesFrom(entries, 0);
            && |names| == UsedBefore(entries, |entries|)
            && UsedBefore(entries, i) < |names| && names[UsedBefore(entries, i)] == Name(entries[i])
  {
    UsedOnly(entries, 0, i);
  }

  // ---------- Listing ----------

  /** The first `n` names, or all. */
  function FirstNames(names: seq<string>, n: int): seq<string> {
    if n <= 0 then [] else if n < |names| then names[..n] else names
  }

  ghost predicate NamesBelow(entries: seq<Entry>, inodes: nat) {
    forall i :: 0 <= i < |entries| && Name(entries[i]) != "" ==> i < inodes
  }

  /** Where the names that are left are: no further than the index nodes go. */
  lemma NextNameBefore(entries: seq<Entry>, at: nat, inodes: nat)
    requires NamesFrom(entries, at) != [] && NamesBelow(entries, inodes)
    ensures at < |entries| && at < inodes
    decreases |entries| - at
  {
    if at < |entries| && Name(entries[at]) == "" {
      NextNameBefore(entries, at + 1, inodes);
    }
  }

  lemma NextSlot(entries: seq<Entry>, at: nat)
    requires IsTable(entries) && at < |entries|
    ensures var e, rest := entries[at], NamesFrom(entries, at + 1);
            NamesFrom(entries, at) == if e.filename[0] == '\0' then rest else [UpToNul(e.filename)] + rest
  {
  }

  lemma NoSlotLeft(entries: seq<Entry>)
    requires IsTable(entries)
    ensures NamesFrom(entries, MAX_DIR_ENTRIES) == []
  {
  }

  lemma OneNameLess(name: string, rest: seq<string>, n: int)
    requires n > 0
    ensures var names := FirstNames([name] + rest, n);
            names != [] && names[0] == name && names[1..] == FirstNames(rest, n - 1)
  {
  }

  /** An open directory counts the names that it still lists in its flags. */
  class OpenDirectory {
    var flags: int
    var filePosition: nat

    /** The search for a name does not leave the slots that have index nodes: either there are as many
        names as are still to be listed, or every slot has one. */
    ghost predicate Valid(entries: seq<Entry>, inodes: nat)
      reads this
    {
      && IsTable(entries) && filePosition <= MAX_DIR_ENTRIES && 0 <= flags && NamesBelow(entries, inodes)
      && (flags <= |NamesFrom(entries, filePosition)| || MAX_DIR_ENTRIES <= inodes)
    }

    ghost function Left(entries: seq<Entry>): seq<string>
      reads this
    {
      FirstNames(NamesFrom(entries, filePosition), flags)
    }

    /** As many names are listed as the boot block counts, if there are so many. */
    constructor (entries: seq<Entry>, inodes: nat, numDirEntries: nat)
      requires IsTable(entries) && NamesBelow(entries, inodes)
      requires numDirEntries <= |NamesFrom(entries, 0)| || MAX_DIR_ENTRIES <= inodes
      ensures Valid(entries, inodes) && Left(entries) == FirstNames(NamesFrom(entries, 0), numDirEntries)
    {
      filePosition := 0;
      flags := numDirEntries;
    }

    /** Lists the next name, as much of it as fits, and nothing once all are listed. */
    method DirectoryRead(entries: seq<Entry>, inodes: nat, buffer: array<char>, nbytes: nat) returns (ret: nat)
      requires Valid(entries, inodes) && nbytes <= FILENAME_SIZE && nbytes <= buffer.Length
      modifies this, buffer
      ensures Valid(entries, inodes)
      ensures var names := old(Left(entries));
              if names == [] then ret == 0 && Left(entries) == [] && buffer[..] == old(buffer[..])
              else
                && Left(entries) == names[1..]
                && ret == |Take(names[0], nbytes)| && buffer[..ret] == Take(names[0], nbytes)
                && (ret < nbytes ==> buffer[ret] == '\0')
                && forall k :: 0 <= k < buffer.Length && (k > ret || k >= nbytes) ==> buffer[k] == old(buffer[k])
    {
      hide NamesFrom, Name, UpToNul, Take, NamesBelow;
      ghost var names := Left(entries);
      NoSlotLeft(entries);
      while true
        invariant Valid(entries, inodes) && Left(entries) == names && buffer[..] == old(buffer[..])
        decreases MAX_DIR_ENTRIES - filePosition
      {
        if flags == 0 || filePosition == MAX_DIR_ENTRIES {
          return 0;
        }
        if NamesFrom(entries, filePosition) != [] {
          NextNameBefore(entries, filePosition, inodes);
        }
        NextSlot(entries, filePosition);
        var dentry := ReadDentryByIndex(entries, inodes, filePosition);
        var filename := dentry.value.filename;
        if filename[0] == '\0' {
          filePosition := filePosition + 1;
        } else {
          OneNameLess(UpToNul(filename), NamesFrom(entries, filePosition + 1), flags);
          ret := CopyName(filename, buffer, nbytes);
          filePosition := filePosition + 1;
          flags := flags - 1;
          return;
        }
      }
    }
  }

  /** The last index is computed without a sign, so that no index is too high where there are no index
      nodes. */
  method ReadDentryByIndex(entries: seq<Entry>, inodes: nat, index: nat) returns (dentry: Option<Entry>)
    requires index < |entries| <= 0xFFFF_FFFF
    ensures dentry == if index < inodes || inodes == 0 then Some(entries[index]) else None
  {
    var last := if inodes == 0 then 0xFFFF_FFFF else inodes - 1;
    if index > last {
      return None;
    }
    return Some(entries[index]);
  }

  method CopyName(filename: seq<char>, buffer: array<char>, nbytes: nat) returns (ret: nat)
    requires |filename| == FILENAME_SIZE && nbytes <= FILENAME_SIZE && nbytes <= buffer.Length
    modifies buffer
    ensures ret == |Take(UpToNul(filename), nbytes)| && buffer[..ret] == Take(UpToNul(filename), nbytes)
    ensures ret < nbytes ==> buffer[ret] == '\0'
    ensures forall k :: 0 <= k < buffer.Length && (k > ret || k >= nbytes) ==> buffer[k] == old(buffer[k])
  {
    ghost var name := UpToNul(filename);
    var i := 0;
    while i < nbytes
      invariant i <= nbytes && i <= |name|
      invariant forall k :: 0 <= k < buffer.Length ==> buffer[k] == if k < i then name[k] else old(buffer[k])
    {
      assert i < |name| ==> filename[i] == name[i] && name[i] in name;
      if filename[i] == '\0' {
        buffer[i] := '\0';
        return i;
      }
      buffer[i] := filename[i];
      i := i + 1;
    }
    return i;
  }

  // ---------- Searching ----------

  /** The first slot with the name. */
  ghost predicate FoundAt(entries: seq<Entry>, name: string, i: nat) {
    i < |entries| && Name(entries[i]) == name && forall k :: 0 <= k < i ==> Name(entries[k]) != name
  }

  /** Whether two names agree in as far as they count. The search stops before the characters behind the
      end of either. */
  method CompareNames(filename: seq<char>, fname: string) returns (r: int)
    requires |filename| == FILENAME_SIZE && '\0' !in fname && |fname| <= FILENAME_SIZE
    ensures r == 0 <==> UpToNul(filename) == fname
  {
    ghost var name := UpToNul(filename);
    for i := 0 to FILENAME_SIZE
      invariant i <= |name| && i <= |fname| && forall k :: 0 <= k < i ==> filename[k] == fname[k]
    {
      var c := if i < |fname| then fname[i] else '\0';
      assert i < |fname| ==> c in fname;
      assert i < |name| ==> filename[i] in name;
      if filename[i] != c || filename[i] == '\0' {
        return filename[i] as int - c as int;
      }
    }
    return 0;
  }

  method ReadDentryByName(entries: seq<Entry>, fname: string) returns (ret: int, dentry: Option<Entry>)
    requires IsTable(entries) && '\0' !in fname
    ensures if 0 < |fname| <= FILENAME_SIZE && exists i :: 0 <= i < |entries| && Name(entries[i]) == fname
            then ret == 0 && exists slot: nat :: FoundAt(entries, fname, slot) && dentry == Some(entries[slot])
            else ret == -1 && dentry == None
  {
    if |fname| == 0 {
      return -1, None;
    }
    if |fname| > FILENAME_SIZE {
      return -1, None;
    }
    var i := 0;
    while i < MAX_DIR_ENTRIES
      invariant 0 <= i <= MAX_DIR_ENTRIES && forall k :: 0 <= k < i ==> Name(entries[k]) != fname
    {
      if entries[i].filename[0] != '\0' {
        var r := CompareNames(entries[i].filename, fname);
        if r == 0 {
          assert FoundAt(entries, fname, i);
          return 0, Some(entries[i]);
        }
      }
      i := i + 1;
    }
    return -1, None;
  }

  ghost predicate DistinctNames(entries: seq<Entry>) {
    forall i, j :: 0 <= i < j < |entries| && Name(entries[i]) != "" ==> Name(entries[i]) != Name(entries[j])
  }

  /** The name of entry `i` leads to a slot. */
  ghost predicate NamedAt(entries: seq<Entry>, i: nat, slot: nat)
    requires i < |entries|
  {
    Name(entries[i]) != "" && FoundAt(entries, Name(entries[i]), slot)
  }

  /** Every listed name leads to its own slot exactly when no name occurs twice. */
  lemma FindsOwnSlots(entries: seq<Entry>)
    ensures DistinctNames(entries)
       <==> forall i, slot :: 0 <= i < |entries| && 0 <= slot && NamedAt(entries, i, slot) ==> slot == i
  {
    hide Name;
    if !DistinctNames(entries) {
      var i, j :| 0 <= i < j < |entries| && Name(entries[i]) != "" && Name(entries[i]) == Name(entries[j]);
      var slot := FirstNamed(entries, Name(entries[j]), i);
      assert NamedAt(entries, j, slot);
    }
  }

  /** Some slot with the name is the first one. */
  lemma FirstNamed(entries: seq<Entry>, name: string, i: nat) returns (slot: nat)
    requires i < |entries| && Name(entries[i]) == name
    ensures FoundAt(entries, name, slot) && slot <= i
  {
    slot := 0;
    while Name(entries[slot]) != name
      invariant slot <= i && forall k :: 0 <= k < slot ==> Name(entries[k]) != name
      decreases i - slot
    {
      slot := slot + 1;
    }
  }

  // ---------- A program that lists the directory ----------

  const LS_BYTES: nat := 32

  /** Every name with a newline behind it. */
  function Listing(names: seq<string>): string {
    if names == [] then [] else names[0] + ['\n'] + Listing(names[1..])
  }

  lemma ListingNext(output: string, names: seq<string>, line: string)
    requires names != [] && line == names[0] + ['\n']
    ensures (output + line) + Listing(names[1..]) == output + Listing(names)
  {
  }

  lemma ListingDone(output: string)
    ensures output + Listing([]) == output && [] + output == output
  {
  }

  /** Lists every name once, in the order of their slots. */
  method Ls(entries: seq<Entry>, inodes: nat, dir: OpenDirectory) returns (output: string)
    requires dir.Valid(entries, inodes)
    modifies dir
    ensures output == Listing(old(dir.Left(entries))) && dir.Left(entries) == []
  {
    hide NamesFrom, Name, UpToNul, IsTable, NamesBelow, Listing, OpenDirectory.Valid, OpenDirectory.Left;
    var buf := new char[LS_BYTES + 1];
    output := [];
    ghost var names, left := dir.Left(entries), dir.Left(entries);
    ListingDone(Listing(names));
    while true
      invariant dir.Valid(entries, inodes) && fresh(buf) && left == dir.Left(entries)
      invariant output + Listing(left) == Listing(names)
      decreases |left|
    {
      NamesWhole(entries, inodes, dir);
      var cnt := dir.DirectoryRead(entries, inodes, buf, LS_BYTES);
      if cnt == 0 {
        ListingDone(output);
        break;
      }
      buf[cnt] := '\n';
      assert buf[..cnt + 1] == left[0] + ['\n'];
      ListingNext(output, left, buf[..cnt + 1]);
      output := output + buf[..cnt + 1];
      left := left[1..];
    }
  }

  /** Names are not empty, and no longer than what is read at a time. */
  lemma NamesWhole(entries: seq<Entry>, inodes: nat, dir: OpenDirectory)
    requires dir.Valid(entries, inodes)
    ensures forall name :: name in dir.Left(entries) ==> 0 < |name| && Take(name, LS_BYTES) == name
  {
    NamesFit(entries, dir.filePosition);
  }

  lemma {:induction false} NamesFit(entries: seq<Entry>, at: nat)
    requires IsTable(entries)
    ensures forall name :: name in NamesFrom(entries, at) ==> 0 < |name| <= LS_BYTES
    decreases |entries| - at
  {
    if at < |entries| {
      NamesFit(entries, at + 1);
    }
  }
}
