/** What each request to the file store answers and changes, said of the files and their bytes. */
module FileLaws {
  import opened Bytes
  import opened DiskLayout
  import opened FileRuns
  import opened Reservation

  /** A new file gets the lowest free number and is empty; all other files are as before. */
  lemma CreateAnswers(s: Store, name: seq<Byte>, fields: FileHeader)
    requires Admissible(s, Creating(name, fields))
    ensures var answer, e := Answered(s, Creating(name, fields)), Applied(s, Creating(name, fields));
            && answer.Number? && answer.n !in s.files && (forall j: nat :: j < answer.n ==> j in s.files)
            && e.files.Keys == s.files.Keys + {answer.n} && e.files[answer.n].contents == []
            && e.files[answer.n].blocks == 1 && e.free == s.free - 1
            && forall j :: j in s.files ==> e.files[j] == s.files[j]
  {
  }

  /** Bytes written are there afterwards, all other bytes are as before, and so is every other file. */
  lemma WriteAnswers(s: Store, n: nat, data: seq<Byte>, offset: U32)
    requires Admissible(s, Writing(n, data, offset))
    ensures var e := Applied(s, Writing(n, data, offset));
            && Answered(s, Writing(n, data, offset)) == Done
            && e.files.Keys == s.files.Keys && (forall j :: j in s.files && j != n ==> e.files[j] == s.files[j])
            && var was, now := s.files[n].contents, e.files[n].contents;
               && |now| == (if offset + |data| > |was| then offset + |data| else |was|)
               && (forall i :: 0 <= i < |data| ==> now[offset + i] == data[i])
               && (forall i :: 0 <= i < |was| && !(offset <= i < offset + |data|) ==> now[i] == was[i])
  {
    hide Estimate;
  }

  /** A read answers the bytes that are there and changes nothing. */
  lemma ReadAnswers(s: Store, n: nat, length: U32, offset: U32, leftover: int)
    requires Admissible(s, Reading(n, length, offset, leftover))
    ensures var answer := Answered(s, Reading(n, length, offset, leftover));
            && answer.Contents? && |answer.bytes| == length
            && (forall i :: 0 <= i < length ==> answer.bytes[i] == s.files[n].contents[offset + i])
    ensures Applied(s, Reading(n, length, offset, leftover)) == s
  {
  }

  /** A deleted file is gone, its blocks are free, and all other files are as before. */
  lemma RemoveAnswers(s: Store, n: nat)
    requires Admissible(s, Removing(n))
    ensures var e := Applied(s, Removing(n));
            && Answered(s, Removing(n)) == Done
            && e.files.Keys == s.files.Keys - {n} && e.free == s.free + s.files[n].blocks
            && forall j :: j in e.files ==> e.files[j] == s.files[j]
  {
  }

  /** The requests of a run do not write to or delete the file. */
  predicate Spared(rs: seq<Request>, n: nat) {
    forall k :: 0 <= k < |rs| ==> !(rs[k].Writing? && rs[k].n == n) && rs[k] != Removing(n)
  }

  /** Whatever else a run does, a file it neither writes to nor deletes keeps its bytes. */
  lemma {:induction false} RunKeepsFile(s: Store, rs: seq<Request>, n: nat)
    requires AllAdmissible(s, rs) && n in s.files && Spared(rs, n)
    ensures n in AppliedAll(s, rs).files && AppliedAll(s, rs).files[n] == s.files[n]
    decreases |rs|
  {
    if rs != [] {
      StepKeepsFile(s, rs[0], n);
      hide Admissible, Applied;
      RunKeepsFile(Applied(s, rs[0]), rs[1..], n);
    }
  }

  lemma StepKeepsFile(s: Store, r: Request, n: nat)
    requires Admissible(s, r) && n in s.files && !(r.Writing? && r.n == n) && r != Removing(n)
    ensures n in Applied(s, r).files && Applied(s, r).files[n] == s.files[n]
  {
    hide Overwrite, Estimate;
  }

  /** So what was written is read back after any run that spares the file. */
  lemma ReadAfterRun(s: Store, n: nat, data: seq<Byte>, offset: U32, rs: seq<Request>, leftover: int)
    requires Admissible(s, Writing(n, data, offset)) && (leftover != 0 || offset < 180)
    requires AllAdmissible(Applied(s, Writing(n, data, offset)), rs) && Spared(rs, n)
    ensures var e := AppliedAll(Applied(s, Writing(n, data, offset)), rs);
            && Admissible(e, Reading(n, |data|, offset, leftover))
            && Answered(e, Reading(n, |data|, offset, leftover)) == Contents(data)
  {
    WriteAnswers(s, n, data, offset);
    var w := Applied(s, Writing(n, data, offset));
    assert |data| < 0x1_0000_0000;
    hide Applied, AppliedAll, AllAdmissible, Spared;
    RunKeepsFile(w, rs, n);
    ReadAnswers(AppliedAll(w, rs), n, |data|, offset, leftover);
  }
}
