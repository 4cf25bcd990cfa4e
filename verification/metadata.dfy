/** The storage server's `.metadata` file: records printed as text lines and read back with
    `fscanf` and `fgets`. As a store it is a finite map from file names to owner and access list. */
module Metadata {
  import opened Text
  import opened Wrappers
  import AccessLists

  type Access = AccessLists.Access

  datatype Record = Record(filename: string, owner: string, access: seq<Access>)

  const MAX_FILENAME := 100
  const MAX_USERNAME := 50
  const MAX_FILES_PER_SS := 100

  // ---------- printing ----------

  function Digit(d: nat): char
    requires d < 10
  {
    (('0' as int) + d) as char
  }

  /** `%d` of a non-negative number. */
  function NumText(n: nat): string {
    if n < 10 then [Digit(n)] else NumText(n / 10) + [Digit(n % 10)]
  }

  /** `%d`. */
  function IntText(n: int): string {
    if n < 0 then "-" + NumText(-n) else NumText(n)
  }

  function PrintEntry(a: Access): string {
    a.user + " " + IntText(a.perm) + "\n"
  }

  function PrintAccess(list: seq<Access>): string {
    if list == [] then "" else PrintEntry(list[0]) + PrintAccess(list[1..])
  }

  function PrintRecord(r: Record): string {
    r.filename + "\n" + r.owner + "\n" + NumText(|r.access|) + "\n" + PrintAccess(r.access)
  }

  function PrintRecords(recs: seq<Record>): string {
    if recs == [] then "" else PrintRecord(recs[0]) + PrintRecords(recs[1..])
  }

  function PrintStore(recs: seq<Record>): string {
    NumText(|recs|) + "\n" + PrintRecords(recs)
  }

  // ---------- reading ----------

  predicate IsDigit(c: char) {
    '0' <= c <= '9'
  }

  function DigitValue(c: char): nat
    requires IsDigit(c)
  {
    (c as int) - ('0' as int)
  }

  /** White space in a format: any amount of white space in the input. */
  function SkipSpace(s: string): string {
    if s != "" && IsSpace(s[0]) then SkipSpace(s[1..]) else s
  }

  function ReadDigits(s: string, acc: nat): (nat, string)
    decreases s
  {
    if s != "" && IsDigit(s[0]) then ReadDigits(s[1..], acc * 10 + DigitValue(s[0])) else (acc, s)
  }

  /** `%d`: white space, an optional sign, digits. */
  function ReadInt(s: string): Option<(int, string)> {
    var t := SkipSpace(s);
    var signed := t != "" && (t[0] == '-' || t[0] == '+');
    var u := if signed then t[1..] else t;
    if u == "" || !IsDigit(u[0]) then None
    else
      var (n, rest) := ReadDigits(u, 0);
      Some(((if signed && t[0] == '-' then -1 else 1) * n, rest))
  }

  /** `"%d\n"` where the C code ignores the result: 0 stands for an undefined value. */
  function ReadCount(s: string): (int, string) {
    match ReadInt(s)
    case None => (0, s)
    case Some((n, rest)) => (n, SkipSpace(rest))
  }

  /** `fgets` with room for `room` characters, and the newline cut off. */
  function ReadLine(s: string, room: nat): (string, string)
    decreases room
  {
    if s == "" || room == 0 then ("", s)
    else if s[0] == '\n' then ("", s[1..])
    else
      var (line, rest) := ReadLine(s[1..], room - 1);
      ([s[0]] + line, rest)
  }

  function TakeWord(s: string): (string, string) {
    if s == "" || IsSpace(s[0]) then ("", s)
    else
      var (w, rest) := TakeWord(s[1..]);
      ([s[0]] + w, rest)
  }

  /** `"%s %d\n"`. */
  function ReadAccess(s: string): (Access, string) {
    var (user, rest) := TakeWord(SkipSpace(s));
    var (perm, rest') := ReadCount(rest);
    (AccessLists.Access(user, perm), rest')
  }

  function ReadAccessList(s: string, n: nat): (seq<Access>, string)
    decreases n
  {
    if n == 0 then ([], s)
    else
      var (a, rest) := ReadAccess(s);
      var (list, rest') := ReadAccessList(rest, n - 1);
      ([a] + list, rest')
  }

  function ReadHeader(s: string): (string, string, nat, string) {
    var (filename, s1) := ReadLine(s, MAX_FILENAME - 1);
    var (owner, s2) := ReadLine(s1, MAX_USERNAME - 1);
    var (count, s3) := ReadCount(s2);
    (filename, owner, if count < 0 then 0 else count, s3)
  }

  function ReadRecord(s: string): (Record, string) {
    var (filename, owner, count, s1) := ReadHeader(s);
    var (access, s2) := ReadAccessList(s1, count);
    (Record(filename, owner, access), s2)
  }

  function ReadRecords(s: string, n: nat): seq<Record>
    decreases n
  {
    if n == 0 then []
    else
      var (r, rest) := ReadRecord(s);
      [r] + ReadRecords(rest, n - 1)
  }

  /** What a missing, unreadable or written file holds. */
  function ReadStore(text: Option<string>): seq<Record> {
    if text.None? then []
    else match ReadInt(text.value)
      case None => []
      case Some((n, rest)) => ReadRecords(SkipSpace(rest), if n < 0 then 0 else n)
  }

  // ---------- records that survive ----------

  /** A line `fgets` reads back: short enough, and one line. */
  predicate IsLine(w: string, max: nat) {
    |w| < max && '\n' !in w
  }

  /** A name `%s` reads back: not empty, no white space, short enough. */
  predicate IsAccess(a: Access) {
    0 < |a.user| < MAX_USERNAME && forall c | c in a.user :: !IsSpace(c)
  }

  /** The file name may hold blanks but not start with one: the format before it would skip that. */
  predicate IsRecord(r: Record) {
    && IsLine(r.filename, MAX_FILENAME - 1) && r.filename != "" && !IsSpace(r.filename[0])
    && IsLine(r.owner, MAX_USERNAME - 1)
    && |r.access| <= AccessLists.MAX_PERMISSIONS_PER_FILE && forall a | a in r.access :: IsAccess(a)
  }

  predicate IsStore(recs: seq<Record>) {
    && |recs| <= MAX_FILES_PER_SS
    && (forall r | r in recs :: IsRecord(r))
    && (forall i, j | 0 <= i < j < |recs| :: recs[i].filename != recs[j].filename)
  }

  /** Text after which a format's trailing white space stops. */
  predicate StartsClean(s: string) {
    s == "" || !IsSpace(s[0])
  }

  lemma {:induction false} NumTextDigits(n: nat)
    ensures NumText(n) != "" && forall c | c in NumText(n) :: IsDigit(c)
  {
    if n >= 10 {
      NumTextDigits(n / 10);
    }
  }

  lemma {:induction false} DigitsBack(n: nat, rest: string)
    ensures ReadDigits(NumText(n) + rest, 0) == ReadDigits(rest, n)
    decreases n
  {
    if n < 10 {
      assert (NumText(n) + rest)[1..] == rest;
    } else {
      var d := [Digit(n % 10)];
      Assoc(NumText(n / 10), d, rest);
      DigitsBack(n / 10, d + rest);
      assert (d + rest)[1..] == rest;
    }
  }

  /** A printed number is read back, up to the character that follows it. */
  lemma IntBack(n: nat, rest: string)
    requires rest != "" && !IsDigit(rest[0])
    ensures ReadInt(NumText(n) + rest) == Some((n, rest))
  {
    NumTextDigits(n);
    DigitsBack(n, rest);
    var s := NumText(n) + rest;
    assert s[0] == NumText(n)[0] && NumText(n)[0] in NumText(n);
    assert SkipSpace(s) == s;
  }

  /** A printed negative number, too. */
  lemma NegativeBack(n: int, rest: string)
    requires n > 0 && rest != "" && !IsDigit(rest[0])
    ensures ReadInt("-" + NumText(n) + rest) == Some((-n, rest))
  {
    NumTextDigits(n);
    DigitsBack(n, rest);
    var s, u := "-" + NumText(n) + rest, NumText(n) + rest;
    assert s[0] == '-' && s[1..] == u;
    assert u[0] == NumText(n)[0] && NumText(n)[0] in NumText(n);
    assert SkipSpace(s) == s;
  }

  lemma CountBack(n: int, rest: string)
    requires StartsClean(rest)
    ensures ReadCount(IntText(n) + "\n" + rest) == (n, rest)
  {
    Assoc(IntText(n), "\n", rest);
    if n < 0 {
      NegativeBack(-n, "\n" + rest);
    } else {
      IntBack(n, "\n" + rest);
    }
    assert ("\n" + rest)[1..] == rest;
    assert SkipSpace("\n" + rest) == SkipSpace(rest) == rest;
  }

  lemma {:induction false} LineBack(w: string, rest: string, room: nat)
    requires IsLine(w, room)
    ensures ReadLine(w + "\n" + rest, room) == (w, rest)
    decreases w
  {
    var s := w + "\n" + rest;
    if w == "" {
      assert s[1..] == rest;
    } else {
      assert w[0] in w;
      assert s[0] == w[0] && s[1..] == w[1..] + "\n" + rest;
      LineBack(w[1..], rest, room - 1);
      assert [w[0]] + w[1..] == w;
    }
  }

  lemma {:induction false} WordBack(w: string, rest: string)
    requires rest != "" && IsSpace(rest[0]) && forall c | c in w :: !IsSpace(c)
    ensures TakeWord(w + rest) == (w, rest)
    decreases w
  {
    if w == "" {
      assert w + rest == rest;
    } else {
      assert w[0] in w;
      assert (w + rest)[1..] == w[1..] + rest;
      WordBack(w[1..], rest);
      assert [w[0]] + w[1..] == w;
    }
  }

  lemma AccessBack(a: Access, rest: string)
    requires IsAccess(a) && StartsClean(rest)
    ensures ReadAccess(PrintEntry(a) + rest) == (a, rest) && StartsClean(PrintEntry(a) + rest)
  {
    var tail := IntText(a.perm) + "\n" + rest;
    var s := a.user + (" " + tail);
    assert PrintEntry(a) + rest == s;
    assert s[0] == a.user[0] && a.user[0] in a.user;
    assert SkipSpace(s) == s;
    WordBack(a.user, " " + tail);
    CountBack(a.perm, rest);
    assert (" " + tail)[1..] == tail;
    assert SkipSpace(" " + tail) == SkipSpace(tail);
  }

  lemma {:induction false} AccessListBack(list: seq<Access>, rest: string)
    requires StartsClean(rest) && forall a | a in list :: IsAccess(a)
    ensures ReadAccessList(PrintAccess(list) + rest, |list|) == (list, rest)
    ensures StartsClean(PrintAccess(list) + rest)
    decreases list
  {
    if list == [] {
      assert PrintAccess(list) + rest == rest;
    } else {
      var a, more := list[0], PrintAccess(list[1..]) + rest;
      assert a in list && list == [a] + list[1..];
      AccessListBack(list[1..], rest);
      AccessBack(a, more);
      Assoc(PrintEntry(a), PrintAccess(list[1..]), rest);
    }
  }

  function PrintHeader(r: Record, rest: string): string {
    r.filename + "\n" + (r.owner + "\n" + (NumText(|r.access|) + "\n" + rest))
  }

  lemma HeaderBack(r: Record, rest: string)
    requires IsRecord(r) && StartsClean(rest)
    ensures ReadHeader(PrintHeader(r, rest)) == (r.filename, r.owner, |r.access|, rest)
    ensures StartsClean(PrintHeader(r, rest))
  {
    LineBack(r.filename, r.owner + "\n" + (NumText(|r.access|) + "\n" + rest), MAX_FILENAME - 1);
    LineBack(r.owner, NumText(|r.access|) + "\n" + rest, MAX_USERNAME - 1);
    CountBack(|r.access|, rest);
  }

  lemma RecordHeader(r: Record, rest: string)
    ensures PrintRecord(r) + rest == PrintHeader(r, PrintAccess(r.access) + rest)
  {
    var count, access := NumText(|r.access|) + "\n", PrintAccess(r.access);
    Assoc(r.filename + "\n" + r.owner + "\n" + count, access, rest);
    Assoc(r.filename + "\n" + r.owner + "\n", count, access + rest);
    Assoc(r.filename + "\n", r.owner + "\n", count + (access + rest));
  }

  lemma RecordBack(r: Record, rest: string)
    requires IsRecord(r) && StartsClean(rest)
    ensures ReadRecord(PrintRecord(r) + rest) == (r, rest)
    ensures StartsClean(PrintRecord(r) + rest)
  {
    AccessListBack(r.access, rest);
    HeaderBack(r, PrintAccess(r.access) + rest);
    RecordHeader(r, rest);
  }

  lemma {:induction false} RecordsBack(recs: seq<Record>)
    requires forall r | r in recs :: IsRecord(r)
    ensures ReadRecords(PrintRecords(recs), |recs|) == recs && StartsClean(PrintRecords(recs))
  {
    if recs != [] {
      assert recs[0] in recs;
      RecordsBack(recs[1..]);
      RecordBack(recs[0], PrintRecords(recs[1..]));
    }
  }

  /** Printing a store and reading it back gives the same records. */
  lemma StoreRoundTrip(recs: seq<Record>)
    requires |recs| <= MAX_FILES_PER_SS && forall r | r in recs :: IsRecord(r)
    ensures ReadStore(Some(PrintStore(recs))) == recs
  {
    RecordsBack(recs);
    Assoc(NumText(|recs|), "\n", PrintRecords(recs));
    IntBack(|recs|, "\n" + PrintRecords(recs));
    assert ("\n" + PrintRecords(recs))[1..] == PrintRecords(recs);
    assert SkipSpace("\n" + PrintRecords(recs)) == SkipSpace(PrintRecords(recs));
  }

  /** How a store looks in the file. */
  lemma StoreLooksLike(r: Record, user: string, perm: int)
    requires r.access == [AccessLists.Access(user, perm)]
    ensures PrintStore([]) == "0\n" && IntText(-10) == "-10"
    ensures PrintStore([r])
         == "1\n" + (r.filename + "\n" + (r.owner + "\n" + ("1\n" + (user + " " + IntText(perm) + "\n"))))
  {
    var line := user + " " + IntText(perm) + "\n";
    assert r.access[1..] == [] && PrintAccess(r.access) == line + "" == line;
    RecordHeader(r, "");
    assert PrintRecord(r) + "" == PrintRecord(r) && line + "" == line;
    assert [r][1..] == [] && PrintRecords([r]) == PrintRecord(r) + "";
    assert NumText(10) == NumText(1) + "0" == "10" && "-" + "10" == "-10";
    assert NumText(1) == "1" && NumText(0) == "0" && "0\n" + "" == "0\n";
    assert "1" + "\n" + line == "1\n" + line;
  }

  /** A line as long as the buffer leaves its newline behind, and the next line is read as empty: the
      usable length is one less than the buffers suggest. */
  lemma {:induction false} FullLineLeavesNewline(w: string, rest: string, room: nat)
    requires |w| == room && '\n' !in w
    ensures ReadLine(w + "\n" + rest, room) == (w, "\n" + rest)
    ensures ReadLine("\n" + rest, MAX_USERNAME - 1) == ("", rest)
    decreases w
  {
    var s := w + "\n" + rest;
    assert ("\n" + rest)[1..] == rest;
    if w == "" {
      assert s == "\n" + rest;
    } else {
      assert w[0] in w;
      assert s[0] == w[0] && s[1..] == w[1..] + "\n" + rest;
      FullLineLeavesNewline(w[1..], rest, room - 1);
      assert [w[0]] + w[1..] == w;
    }
  }

  // ---------- the store as a map ----------

  function IndexOf(recs: seq<Record>, filename: string, i: nat): (r: int)
    requires i <= |recs|
    ensures -1 <= r < |recs| && (0 <= r ==> i <= r && recs[r].filename == filename)
    ensures forall j | i <= j < (if r == -1 then |recs| else r) :: recs[j].filename != filename
    decreases |recs| - i
  {
    if i == |recs| then -1 else if recs[i].filename == filename then i else IndexOf(recs, filename, i + 1)
  }

  /** Owner and access list of a file; a file without a record belongs to the system. */
  function Lookup(recs: seq<Record>, filename: string): (string, seq<Access>) {
    var i := IndexOf(recs, filename, 0);
    if i == -1 then ("system", []) else (recs[i].owner, recs[i].access)
  }

  /** The name of a new record: the C code copies no more than the length of a user name, which leaves a
      longer name without its end. `rest` is what the buffer happens to hold after it. */
  function StoredName(filename: string, rest: string): string {
    if |filename| < MAX_USERNAME then filename else filename[..MAX_USERNAME] + rest
  }

  function Save(recs: seq<Record>, r: Record, rest: string): seq<Record> {
    var i := IndexOf(recs, r.filename, 0);
    if i != -1 then recs[i := r]
    else if |recs| < MAX_FILES_PER_SS then recs + [r.(filename := StoredName(r.filename, rest))]
    else recs
  }

  /** The file has a record, or its name is short enough for a new one. */
  predicate CanStore(recs: seq<Record>, filename: string) {
    IndexOf(recs, filename, 0) != -1 || |filename| < MAX_USERNAME
  }

  function Delete(recs: seq<Record>, filename: string): seq<Record> {
    if recs == [] then [] else (if recs[0].filename == filename then [] else [recs[0]]) + Delete(recs[1..], filename)
  }

  lemma IndexIs(recs: seq<Record>, filename: string, i: nat)
    requires i < |recs| && recs[i].filename == filename && forall j | 0 <= j < i :: recs[j].filename != filename
    ensures IndexOf(recs, filename, 0) == i
  {
  }

  /** Load after save: the saved record for its file, unless the store was full; any other file as
      it was. */
  lemma SaveIsUpdate(recs: seq<Record>, r: Record, rest: string, other: string)
    requires IsStore(recs) && IsRecord(r) && CanStore(recs, r.filename)
    ensures IsStore(Save(recs, r, rest))
    ensures Lookup(Save(recs, r, rest), other)
         == if other == r.filename && (IndexOf(recs, other, 0) != -1 || |recs| < MAX_FILES_PER_SS)
            then (r.owner, r.access) else Lookup(recs, other)
  {
    var recs' := Save(recs, r, rest);
    var k := IndexOf(recs, other, 0);
    if k != -1 {
      IndexIs(recs', other, k);
    } else if other == r.filename && |recs| < MAX_FILES_PER_SS {
      IndexIs(recs', other, |recs|);
    } else {
      assert forall j | 0 <= j < |recs'| :: recs'[j].filename != other;
    }
  }

  /** The saved record is loaded back. */
  predicate Saves(recs: seq<Record>, r: Record, rest: string) {
    Lookup(Save(recs, r, rest), r.filename) == (r.owner, r.access)
  }

  /** A new record under a long name is not found, when the buffer goes on after the copied part. */
  lemma LongNameIsLost(recs: seq<Record>, r: Record)
    requires !CanStore(recs, r.filename)
    ensures Lookup(Save(recs, r, r.filename[MAX_USERNAME..] + "~"), r.filename) == ("system", [])
  {
    var stored := StoredName(r.filename, r.filename[MAX_USERNAME..] + "~");
    assert |stored| == |r.filename| + 1;
    var recs' := Save(recs, r, r.filename[MAX_USERNAME..] + "~");
    assert forall j | 0 <= j < |recs'| :: recs'[j].filename != r.filename;
  }

  /** A save can be relied on, whatever the buffer held before, exactly when the file has a record or
      its name is short and there is room. */
  lemma SaveIsReliableIff(recs: seq<Record>, r: Record)
    requires IsStore(recs) && IsRecord(r) && (r.owner, r.access) != ("system", [])
    ensures (forall rest :: Saves(recs, r, rest))
       <==> IndexOf(recs, r.filename, 0) != -1 || (|r.filename| < MAX_USERNAME && |recs| < MAX_FILES_PER_SS)
  {
    if !CanStore(recs, r.filename) {
      LongNameIsLost(recs, r);
      assert !Saves(recs, r, r.filename[MAX_USERNAME..] + "~");
    } else if IndexOf(recs, r.filename, 0) != -1 || |recs| < MAX_FILES_PER_SS {
      forall rest
        ensures Saves(recs, r, rest)
      {
        SaveIsUpdate(recs, r, rest, r.filename);
      }
    } else {
      assert !Saves(recs, r, "");
    }
  }

  lemma {:induction false} DeleteFacts(recs: seq<Record>, filename: string)
    requires IsStore(recs)
    ensures IsStore(Delete(recs, filename)) && |Delete(recs, filename)| <= |recs|
    ensures forall r :: r in Delete(recs, filename) <==> r in recs && r.filename != filename
  {
    if recs != [] {
      assert forall j | 0 <= j < |recs[1..]| :: recs[1..][j] == recs[j + 1];
      DeleteFacts(recs[1..], filename);
      var rest := Delete(recs[1..], filename);
      assert recs == [recs[0]] + recs[1..];
      forall j | 0 <= j < |rest|
        ensures rest[j].filename != recs[0].filename
      {
        assert rest[j] in recs[1..];
      }
    }
  }

  lemma LookupByRecord(recs: seq<Record>, r: Record)
    requires IsStore(recs) && r in recs
    ensures Lookup(recs, r.filename) == (r.owner, r.access)
  {
    var i :| 0 <= i < |recs| && recs[i] == r;
    IndexIs(recs, r.filename, i);
  }

  /** Load after delete: the default for the file, any other file as it was. */
  lemma DeleteIsRemoval(recs: seq<Record>, filename: string, other: string)
    requires IsStore(recs)
    ensures IsStore(Delete(recs, filename))
    ensures Lookup(Delete(recs, filename), other) == if other == filename then ("system", []) else Lookup(recs, other)
  {
    DeleteFacts(recs, filename);
    var recs' := Delete(recs, filename);
    var k := IndexOf(recs, other, 0);
    if k != -1 && other != filename {
      assert recs[k] in recs';
      LookupByRecord(recs', recs[k]);
      LookupByRecord(recs, recs[k]);
    } else {
      forall j | 0 <= j < |recs'|
        ensures recs'[j].filename != other
      {
        assert recs'[j] in recs';
      }
    }
  }

  // ---------- the file ----------

  /** The `.metadata` file, rewritten as a whole. */
  class MetadataFile {
    var text: Option<string>

    /** The file holds these records. */
    ghost predicate Holds(recs: seq<Record>)
      reads this
    {
      IsStore(recs) && (text == Some(PrintStore(recs)) || (text.None? && recs == []))
    }

    lemma HoldsBack(recs: seq<Record>)
      requires Holds(recs)
      ensures ReadStore(text) == recs
    {
      if text.Some? {
        StoreRoundTrip(recs);
      }
    }

    /** The reading loop. */
    method Read() returns (recs: seq<Record>)
      ensures recs == ReadStore(text)
    {
      recs := [];
      if text.None? {
        return;
      }
      var header := ReadInt(text.value);
      if header.None? {
        return;
      }
      var n, s := header.value.0, SkipSpace(header.value.1);
      var i := 0;
      while i < n
        invariant 0 <= i && (n >= 0 ==> i <= n)
        invariant ReadStore(text) == recs + ReadRecords(s, if n < 0 then 0 else n - i)
      {
        var (r, rest) := ReadRecord(s);
        recs, s, i := recs + [r], rest, i + 1;
      }
      assert recs + [] == recs;
    }

    /** The printing loop. */
    method Write(recs: seq<Record>)
      modifies this
      ensures text == Some(PrintStore(recs))
    {
      var out := NumText(|recs|) + "\n";
      var i := 0;
      while i < |recs|
        invariant 0 <= i <= |recs|
        invariant out + PrintRecords(recs[i..]) == PrintStore(recs)
      {
        assert recs[i..][0] == recs[i] && recs[i..][1..] == recs[i + 1..];
        Assoc(out, PrintRecord(recs[i]), PrintRecords(recs[i + 1..]));
        out := out + PrintRecord(recs[i]);
        i := i + 1;
      }
      assert recs[i..] == [] && out + "" == out;
      text := Some(out);
    }

    /** Replace the file's record, or append one while there is room; `rest` is what the new record's
        name buffer held before. */
    method SaveFileMetadata(filename: string, owner: string, access: seq<Access>, rest: string, ghost recs: seq<Record>)
      requires Holds(recs) && IsRecord(Record(filename, owner, access))
      modifies this
      ensures text == Some(PrintStore(Save(recs, Record(filename, owner, access), rest)))
      ensures CanStore(recs, filename) ==> Holds(Save(recs, Record(filename, owner, access), rest))
    {
      HoldsBack(recs);
      if CanStore(recs, filename) {
        SaveIsUpdate(recs, Record(filename, owner, access), rest, filename);
      }
      var read := Read();
      var i := FindRecord(read, filename);
      if i != -1 {
        read := read[i := Record(filename, owner, access)];
      } else if |read| < MAX_FILES_PER_SS {
        read := read + [Record(StoredName(filename, rest), owner, access)];
      }
      Write(read);
    }

    /** Owner and access list, as the file has them. */
    method LoadFileMetadata(filename: string, ghost recs: seq<Record>) returns (owner: string, access: seq<Access>)
      requires Holds(recs)
      ensures (owner, access) == Lookup(recs, filename)
    {
      HoldsBack(recs);
      var read := Read();
      var i := FindRecord(read, filename);
      if i != -1 {
        return read[i].owner, read[i].access;
      }
      owner, access := "system", [];
    }

    /** Write the other records back. */
    method DeleteFileMetadata(filename: string, ghost recs: seq<Record>)
      requires Holds(recs)
      modifies this
      ensures Holds(Delete(recs, filename))
    {
      HoldsBack(recs);
      DeleteIsRemoval(recs, filename, filename);
      if text.None? {
        return;
      }
      var read := Read();
      var kept := KeepOthers(read, filename);
      Write(kept);
    }
  }

  /** The first record with the name, or -1. */
  method FindRecord(recs: seq<Record>, filename: string) returns (i: int)
    ensures i == IndexOf(recs, filename, 0)
  {
    i := 0;
    while i < |recs|
      invariant 0 <= i <= |recs| && IndexOf(recs, filename, i) == IndexOf(recs, filename, 0)
    {
      if recs[i].filename == filename {
        return;
      }
      i := i + 1;
    }
    i := -1;
  }

  lemma DeleteStep(recs: seq<Record>, filename: string, i: nat, kept: seq<Record>)
    requires i < |recs|
    ensures kept + Delete(recs[i..], filename)
         == (if recs[i].filename == filename then kept else kept + [recs[i]]) + Delete(recs[i + 1..], filename)
  {
    assert recs[i..][0] == recs[i] && recs[i..][1..] == recs[i + 1..];
    if recs[i].filename != filename {
      Assoc(kept, [recs[i]], Delete(recs[i + 1..], filename));
    } else {
      assert [] + Delete(recs[i + 1..], filename) == Delete(recs[i + 1..], filename);
    }
  }

  /** The loop that prints all records but the file's. */
  method KeepOthers(recs: seq<Record>, filename: string) returns (kept: seq<Record>)
    ensures kept == Delete(recs, filename)
  {
    kept := [];
    var i := 0;
    assert recs[0..] == recs && kept + Delete(recs, filename) == Delete(recs, filename);
    while i < |recs|
      invariant 0 <= i <= |recs| && kept + Delete(recs[i..], filename) == Delete(recs, filename)
    {
      DeleteStep(recs, filename, i, kept);
      if recs[i].filename != filename {
        kept := kept + [recs[i]];
      }
      i := i + 1;
    }
    assert recs[i..] == [] && kept + [] == kept;
  }
}
