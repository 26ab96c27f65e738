/**
 * The wire helpers of code/bm_comm.cpp: the NUL-delimited encoding of FASTA
 * records that serialize_fasta_seqs produces and deserialize_fasta_seqs
 * reads back, and accept_op, the vote combine of the parallel driver's
 * reduction. The byte buffer is a sequence of characters; its allocation
 * and copying are not modelled.
 */
module BmComm {

  /** The terminator written after every field. */
  const Nul: char := '\0'

  /** One FASTA record: identifier, description and residues. */
  datatype FastaSeq = FastaSeq(ident: string, desc: string, residues: string)

  // ---------------------------------------------------------------------
  // The encoding serialize_fasta_seqs writes
  // ---------------------------------------------------------------------

  /** One record on the wire: each of its three fields followed by a NUL. */
  function EncodeRecord(r: FastaSeq): seq<char> {
    (r.ident + [Nul]) + (r.desc + [Nul]) + (r.residues + [Nul])
  }

  /** All records on the wire, in order. */
  function Encode(xs: seq<FastaSeq>): seq<char> {
    if xs == [] then [] else Encode(xs[..|xs| - 1]) + EncodeRecord(xs[|xs| - 1])
  }

  /** The byte count serialize_fasta_seqs computes before it allocates the buffer. */
  function Size(xs: seq<FastaSeq>): nat {
    if xs == [] then 0
    else
      var r := xs[|xs| - 1];
      Size(xs[..|xs| - 1]) + (|r.ident| + 1) + (|r.desc| + 1) + (|r.residues| + 1)
  }

  /** The three fields of every record, in order. */
  function FieldList(xs: seq<FastaSeq>): seq<string> {
    if xs == [] then [] else
      var r := xs[|xs| - 1];
      FieldList(xs[..|xs| - 1]) + [r.ident, r.desc, r.residues]
  }

  predicate NulFree(s: string) {
    forall k :: 0 <= k < |s| ==> s[k] != Nul
  }

  /** No field of any record holds a NUL, so each field ends exactly at its terminator. */
  predicate RecordsNulFree(xs: seq<FastaSeq>) {
    forall k :: 0 <= k < |xs| ==> NulFree(xs[k].ident) && NulFree(xs[k].desc) && NulFree(xs[k].residues)
  }

  // ---------------------------------------------------------------------
  // What deserialize_fasta_seqs reads
  // ---------------------------------------------------------------------

  /** Position just after the last NUL among b[..n], or 0 when there is none: where the field in progress starts. */
  function LastStart(b: seq<char>, n: nat): (r: nat)
    requires n <= |b|
    ensures r <= n
  {
    if n == 0 then 0 else if b[n - 1] == Nul then n else LastStart(b, n - 1)
  }

  /** With no NUL among b[..n], the field in progress starts at 0. */
  lemma {:induction false} LastStartNoNul(b: seq<char>, n: nat)
    requires n <= |b| && forall k :: 0 <= k < n ==> b[k] != Nul
    ensures LastStart(b, n) == 0
  {
    if n > 0 {
      LastStartNoNul(b, n - 1);
    }
  }

  /** The NUL-terminated fields among the first n characters of b, in order; characters after the last NUL are not a field. */
  function Fields(b: seq<char>, n: nat): seq<string>
    requires n <= |b|
  {
    if n == 0 then []
    else if b[n - 1] == Nul then Fields(b, n - 1) + [b[LastStart(b, n - 1)..n - 1]]
    else Fields(b, n - 1)
  }

  /** Every three consecutive fields make one record; one or two fields left over make none. */
  function Records(f: seq<string>): seq<FastaSeq> {
    if |f| < 3 then [] else [FastaSeq(f[0], f[1], f[2])] + Records(f[3..])
  }

  /** The records deserialize_fasta_seqs returns for the buffer b. */
  function Decode(b: seq<char>): seq<FastaSeq> {
    Records(Fields(b, |b|))
  }

  // ---------------------------------------------------------------------
  // serialize_fasta_seqs and deserialize_fasta_seqs
  // ---------------------------------------------------------------------

  /**
   * serialize_fasta_seqs: first the byte count, then the buffer, filled
   * record by record at a cursor that ends exactly at that count.
   */
  method SerializeFastaSeqs(fastaSeqs: seq<FastaSeq>) returns (bytes: seq<char>, numBytes: nat)
    ensures numBytes == Size(fastaSeqs) && |bytes| == numBytes
    ensures bytes == Encode(fastaSeqs)
  {
    numBytes := 0;
    for i := 0 to |fastaSeqs|
      invariant numBytes == Size(fastaSeqs[..i])
    {
      assert fastaSeqs[..i + 1][..i] == fastaSeqs[..i];
      numBytes := numBytes + |fastaSeqs[i].ident| + 1;
      numBytes := numBytes + |fastaSeqs[i].desc| + 1;
      numBytes := numBytes + |fastaSeqs[i].residues| + 1;
    }
    assert fastaSeqs[..|fastaSeqs|] == fastaSeqs;

    bytes := [];
    var pos := 0;
    for i := 0 to |fastaSeqs|
      invariant bytes == Encode(fastaSeqs[..i]) && pos == |bytes|
    {
      assert fastaSeqs[..i + 1][..i] == fastaSeqs[..i];
      var r := fastaSeqs[i];
      bytes := bytes + (r.ident + [Nul]);
      pos := pos + |r.ident| + 1;
      bytes := bytes + (r.desc + [Nul]);
      pos := pos + |r.desc| + 1;
      bytes := bytes + (r.residues + [Nul]);
      pos := pos + |r.residues| + 1;
    }
    EncodeSize(fastaSeqs);
    assert pos == numBytes;
  }

  /** deserialize_fasta_seqs's parse states. */
  const FastaIdent := 1
  const FastaDesc := 2
  const FastaSeqState := 3

  /**
   * The parse state after the fields f: the records they complete, the
   * parse state naming the next field, and the fields already read of the
   * record in progress.
   */
  ghost predicate FieldState(f: seq<string>, fastaSeqs: seq<FastaSeq>, state: int, currSeq: FastaSeq) {
    fastaSeqs == Records(f) && state == 1 + |f| % 3 &&
    (|f| % 3 >= 1 ==> currSeq.ident == f[|f| - |f| % 3]) &&
    (|f| % 3 == 2 ==> currSeq.desc == f[|f| - 1])
  }

  /** The state of deserialize_fasta_seqs after the first n bytes of b, with the start of the field being read. */
  ghost predicate ParseState(b: seq<char>, n: nat, fastaSeqs: seq<FastaSeq>, state: int, currSeq: FastaSeq, start: nat)
    requires n <= |b|
  {
    FieldState(Fields(b, n), fastaSeqs, state, currSeq) && start == LastStart(b, n)
  }

  /**
   * deserialize_fasta_seqs: every NUL closes the field that started after
   * the previous one; the third field of a record completes it. The record
   * in progress at the end of the buffer is dropped.
   */
  method DeserializeFastaSeqs(bytes: seq<char>, numBytes: nat) returns (fastaSeqs: seq<FastaSeq>)
    requires numBytes <= |bytes|
    ensures fastaSeqs == Decode(bytes[..numBytes])
  {
    fastaSeqs := [];
    var state := FastaIdent;
    var currSeq := FastaSeq("", "", "");
    var currStart := 0;
    var pos := 0;
    while pos < numBytes
      invariant pos <= numBytes && ParseState(bytes, pos, fastaSeqs, state, currSeq, currStart)
    {
      var next := pos + 1;
      fastaSeqs, state, currSeq, currStart := ParseByte(bytes, pos, next, fastaSeqs, state, currSeq, currStart);
      pos := next;
    }
    FieldsPrefix(bytes, bytes[..numBytes], numBytes);
  }

  /** One pass of deserialize_fasta_seqs's loop, over the byte at pos. */
  method ParseByte(bytes: seq<char>, pos: nat, next: nat, fastaSeqs: seq<FastaSeq>, state: int, currSeq: FastaSeq, currStart: nat)
    returns (fastaSeqs': seq<FastaSeq>, state': int, currSeq': FastaSeq, currStart': nat)
    requires pos < |bytes| && next == pos + 1
    requires ParseState(bytes, pos, fastaSeqs, state, currSeq, currStart)
    ensures ParseState(bytes, next, fastaSeqs', state', currSeq', currStart')
  {
    FieldsStep(bytes, pos, next);
    if bytes[pos] == Nul {
      fastaSeqs', state', currSeq' := CloseField(Fields(bytes, pos), bytes[currStart..pos], fastaSeqs, state, currSeq);
      currStart' := next;
    } else {
      fastaSeqs', state', currSeq', currStart' := fastaSeqs, state, currSeq, currStart;
    }
  }

  /** What deserialize_fasta_seqs does with the field a NUL closes: store it in the record, and complete the record after the third. */
  method CloseField(ghost f: seq<string>, field: string, fastaSeqs: seq<FastaSeq>, state: int, currSeq: FastaSeq)
    returns (fastaSeqs': seq<FastaSeq>, state': int, currSeq': FastaSeq)
    requires FieldState(f, fastaSeqs, state, currSeq)
    ensures FieldState(f + [field], fastaSeqs', state', currSeq')
  {
    RecordsSnoc(f, field);
    fastaSeqs', state', currSeq' := fastaSeqs, state, currSeq;
    if state == FastaIdent {
      currSeq' := currSeq.(ident := field);
      state' := FastaDesc;
    } else if state == FastaDesc {
      currSeq' := currSeq.(desc := field);
      state' := FastaSeqState;
    } else if state == FastaSeqState {
      currSeq' := currSeq.(residues := field);
      fastaSeqs' := fastaSeqs + [currSeq'];
      currSeq' := FastaSeq("", "", "");
      state' := FastaIdent;
    }
  }

  // ---------------------------------------------------------------------
  // Facts about the encoding
  // ---------------------------------------------------------------------

  /** Reading one more byte closes a field exactly when the byte is a NUL; the next field then starts after it. */
  lemma FieldsStep(b: seq<char>, n: nat, next: nat)
    requires n < |b| && next == n + 1
    ensures Fields(b, next) == if b[n] == Nul then Fields(b, n) + [b[LastStart(b, n)..n]] else Fields(b, n)
    ensures LastStart(b, next) == if b[n] == Nul then next else LastStart(b, n)
  {
  }

  /** The buffer is exactly as long as the byte count. */
  lemma {:induction false} EncodeSize(xs: seq<FastaSeq>)
    ensures |Encode(xs)| == Size(xs)
    decreases |xs|
  {
    if xs != [] {
      EncodeSize(xs[..|xs| - 1]);
    }
  }

  /** Adding a field to the list adds a record exactly when it is the third of one. */
  lemma {:induction false} RecordsSnoc(f: seq<string>, x: string)
    ensures Records(f + [x]) ==
      if |f| % 3 == 2 then Records(f) + [FastaSeq(f[|f| - 2], f[|f| - 1], x)] else Records(f)
    decreases |f|
  {
    if |f| >= 3 {
      var rest := f[3..];
      assert (f + [x])[3..] == rest + [x];
      ModThreeShift(|f|, |rest|);
      RecordsSnoc(rest, x);
    }
  }

  /** Dropping a whole record keeps the position within a record. */
  lemma ModThreeShift(n: nat, rest: nat)
    requires rest + 3 == n
    ensures rest % 3 == n % 3
  {
  }

  /** Three fields per record. */
  lemma {:induction false} RecordsCount(f: seq<string>)
    ensures |Records(f)| == |f| / 3
    decreases |f|
  {
    if |f| >= 3 {
      RecordsCount(f[3..]);
    }
  }

  /** The fields of a prefix depend on nothing after it. */
  lemma {:induction false} FieldsPrefix(b: seq<char>, b': seq<char>, n: nat)
    requires n <= |b| && n <= |b'| && b[..n] == b'[..n]
    ensures Fields(b, n) == Fields(b', n) && LastStart(b, n) == LastStart(b', n)
  {
    if n > 0 {
      assert b[n - 1] == b[..n][n - 1] == b'[n - 1];
      assert b[..n - 1] == b[..n][..n - 1];
      assert b'[..n - 1] == b'[..n][..n - 1];
      FieldsPrefix(b, b', n - 1);
      assert b[..n - 1] == b'[..n - 1];
      assert b[LastStart(b, n - 1)..n - 1] == b'[LastStart(b', n - 1)..n - 1];
    }
  }

  /** One field per NUL. */
  lemma {:induction false} FieldsCount(b: seq<char>, n: nat)
    requires n <= |b|
    ensures |Fields(b, n)| == multiset(b[..n])[Nul]
  {
    if n > 0 {
      FieldsCount(b, n - 1);
      assert b[..n] == b[..n - 1] + [b[n - 1]];
    }
  }

  /** deserialize_fasta_seqs returns one record per three NULs, rounded down. */
  lemma DecodeCount(b: seq<char>)
    ensures |Decode(b)| == multiset(b)[Nul] / 3
  {
    FieldsCount(b, |b|);
    assert b[..|b|] == b;
    RecordsCount(Fields(b, |b|));
  }

  /** Characters without a NUL close no field. */
  lemma {:induction false} FieldsNoNul(b: seq<char>, m: nat, n: nat)
    requires m <= n <= |b|
    requires forall k :: m <= k < n ==> b[k] != Nul
    ensures Fields(b, n) == Fields(b, m)
  {
    if m < n {
      FieldsNoNul(b, m, n - 1);
    }
  }

  /** Bytes after the last NUL change nothing in the result. */
  lemma DecodeIgnoresTail(b: seq<char>, tail: seq<char>)
    requires NulFree(tail)
    ensures Decode(b + tail) == Decode(b)
  {
    FieldsNoNul(b + tail, |b|, |b + tail|);
    assert (b + tail)[..|b|] == b[..|b|];
    FieldsPrefix(b + tail, b, |b|);
  }

  /** A field that ends a buffer ending at a NUL (or an empty one) starts right after that NUL. */
  lemma {:induction false} LastStartAppend(a: seq<char>, b: seq<char>, n: nat)
    requires a == [] || a[|a| - 1] == Nul
    requires n <= |b|
    ensures LastStart(a + b, |a| + n) == |a| + LastStart(b, n)
  {
    if n > 0 {
      assert (a + b)[|a| + n - 1] == b[n - 1];
      LastStartAppend(a, b, n - 1);
    } else if a != [] {
      assert (a + b)[|a| - 1] == a[|a| - 1];
    }
  }

  /** Fields do not straddle a NUL: splitting the buffer just after one splits the field list. */
  lemma {:induction false} FieldsAppend(a: seq<char>, b: seq<char>, n: nat)
    requires a == [] || a[|a| - 1] == Nul
    requires n <= |b|
    ensures Fields(a + b, |a| + n) == Fields(a, |a|) + Fields(b, n)
  {
    if n == 0 {
      assert (a + b)[..|a|] == a[..|a|];
      FieldsPrefix(a + b, a, |a|);
    } else {
      FieldsAppend(a, b, n - 1);
      FieldsAppendStep(a, b, n);
    }
  }

  /** The last character of b closes a field of a + b exactly when it closes one of b. */
  lemma FieldsAppendStep(a: seq<char>, b: seq<char>, n: nat)
    requires a == [] || a[|a| - 1] == Nul
    requires 0 < n <= |b|
    requires Fields(a + b, |a| + n - 1) == Fields(a, |a|) + Fields(b, n - 1)
    ensures Fields(a + b, |a| + n) == Fields(a, |a|) + Fields(b, n)
  {
    var ab := a + b;
    assert ab[|a| + n - 1] == b[n - 1];
    if b[n - 1] == Nul {
      var i := LastStart(b, n - 1);
      LastStartAppend(a, b, n - 1);
      assert ab[|a| + i..|a| + n - 1] == b[i..n - 1];
    }
  }

  /** A NUL-free string followed by one NUL is exactly one field. */
  lemma OneField(s: string)
    requires NulFree(s)
    ensures Fields(s + [Nul], |s| + 1) == [s]
  {
    var x := s + [Nul];
    FieldsNoNul(x, 0, |s|);
    LastStartNoNul(x, |s|);
    assert x[0..|s|] == s;
  }

  /** A record on the wire is its three fields. */
  lemma RecordFields(r: FastaSeq)
    requires NulFree(r.ident) && NulFree(r.desc) && NulFree(r.residues)
    ensures Fields(EncodeRecord(r), |EncodeRecord(r)|) == [r.ident, r.desc, r.residues]
  {
    var a, b, c := r.ident + [Nul], r.desc + [Nul], r.residues + [Nul];
    OneField(r.ident);
    OneField(r.desc);
    OneField(r.residues);
    FieldsAppend(a, b, |b|);
    FieldsAppend(a + b, c, |c|);
  }

  /** The encoding of NUL-free records holds exactly their fields, in order. */
  lemma {:induction false} EncodeFields(xs: seq<FastaSeq>)
    requires RecordsNulFree(xs)
    ensures Fields(Encode(xs), |Encode(xs)|) == FieldList(xs)
    ensures Encode(xs) == [] || Encode(xs)[|Encode(xs)| - 1] == Nul
    decreases |xs|
  {
    if xs != [] {
      var init, r := xs[..|xs| - 1], xs[|xs| - 1];
      EncodeFields(init);
      RecordFields(r);
      FieldsAppend(Encode(init), EncodeRecord(r), |EncodeRecord(r)|);
    }
  }

  /** Regrouping the field list of some records gives back those records. */
  lemma {:induction false} RecordsOfFields(xs: seq<FastaSeq>)
    ensures Records(FieldList(xs)) == xs
    decreases |xs|
  {
    if xs != [] {
      var init, r := xs[..|xs| - 1], xs[|xs| - 1];
      RecordsOfFields(init);
      FieldListLength(init);
      RecordsAddThree(FieldList(init), r.ident, r.desc, r.residues, FieldList(xs));
    }
  }

  /** The position within a record moves on by one per field. */
  lemma ModThreeStep(n: nat, next: nat)
    requires next == n + 1
    ensures next % 3 == if n % 3 == 2 then 0 else n % 3 + 1
  {
  }

  /** Two more fields after whole records complete no record. */
  lemma RecordsAddTwo(f: seq<string>, a: string, b: string, f2: seq<string>)
    requires |f| % 3 == 0 && f2 == f + [a] + [b]
    ensures Records(f2) == Records(f) && |f2| % 3 == 2
    ensures f2[|f2| - 2] == a && f2[|f2| - 1] == b
  {
    var f1 := f + [a];
    ModThreeStep(|f|, |f1|);
    ModThreeStep(|f1|, |f2|);
    RecordsSnoc(f, a);
    RecordsSnoc(f1, b);
  }

  /** Three more fields after whole records make exactly one more record. */
  lemma RecordsAddThree(f: seq<string>, a: string, b: string, c: string, g: seq<string>)
    requires |f| % 3 == 0 && g == f + [a, b, c]
    ensures Records(g) == Records(f) + [FastaSeq(a, b, c)]
  {
    var f2 := f + [a] + [b];
    RecordsAddTwo(f, a, b, f2);
    assert g == f2 + [c];
    RecordsSnoc(f2, c);
  }

  lemma {:induction false} FieldListLength(xs: seq<FastaSeq>)
    ensures |FieldList(xs)| == 3 * |xs|
    decreases |xs|
  {
    if xs != [] {
      FieldListLength(xs[..|xs| - 1]);
    }
  }

  /** deserialize_fasta_seqs undoes serialize_fasta_seqs when no field holds a NUL. */
  lemma RoundTrip(xs: seq<FastaSeq>)
    requires RecordsNulFree(xs)
    ensures Decode(Encode(xs)) == xs
  {
    EncodeFields(xs);
    RecordsOfFields(xs);
  }

  // ---------------------------------------------------------------------
  // accept_op
  // ---------------------------------------------------------------------

  /** Vote flags, as code/bm_utils.h defines them. */
  const Accept := 1
  const Reject := 2

  /** A process's vote: its pid and a flag; any flag but Accept counts as a rejection. */
  datatype PidFlag = PidFlag(pid: int, flag: int)

  /** One element of accept_op: Accept beats Reject, the lower pid wins between two Accepts. */
  function Combine(left: PidFlag, right: PidFlag): PidFlag {
    if left.flag == Accept && right.flag == Accept then PidFlag(if left.pid <= right.pid then left.pid else right.pid, Accept)
    else if left.flag == Accept then PidFlag(left.pid, Accept)
    else if right.flag == Accept then PidFlag(right.pid, Accept)
    else PidFlag(-1, Reject)
  }

  /** What no vote at all amounts to. */
  const NoVote := PidFlag(-1, Reject)

  /**
   * accept_op: combine in[i] into inout[i] for every i below len and
   * leave the rest of inout as it was. Each element is read before it is
   * written, so the two buffers may even be the same array.
   */
  method AcceptOp(input: array<PidFlag>, inout: array<PidFlag>, len: int)
    requires len <= input.Length && len <= inout.Length
    modifies inout
    ensures forall i :: 0 <= i < inout.Length ==>
      inout[i] == if i < len then Combine(old(input[i]), old(inout[i])) else old(inout[i])
    ensures input != inout ==> input[..] == old(input[..])
  {
    var i := 0;
    while i < len
      invariant 0 <= i <= (if len < 0 then 0 else len)
      invariant forall j :: 0 <= j < inout.Length ==>
        inout[j] == if j < i then Combine(old(input[j]), old(inout[j])) else old(inout[j])
      invariant forall j :: i <= j < input.Length ==> input[j] == old(input[j])
      invariant input != inout ==> input[..] == old(input[..])
    {
      var left := input[i];
      var right := inout[i];
      var result := Combine(left, right);
      inout[i] := result;
      i := i + 1;
    }
  }

  /** The combine does not depend on the order of its two sides. */
  lemma CombineCommutes(a: PidFlag, b: PidFlag)
    ensures Combine(a, b) == Combine(b, a)
  {
  }

  /** Nor on how three votes are grouped. */
  lemma CombineAssociates(a: PidFlag, b: PidFlag, c: PidFlag)
    ensures Combine(Combine(a, b), c) == Combine(a, Combine(b, c))
  {
  }

  /** The reduction of a whole list of votes, one at a time from the left. */
  function Fold(votes: seq<PidFlag>): PidFlag {
    if votes == [] then NoVote else Combine(Fold(votes[..|votes| - 1]), votes[|votes| - 1])
  }

  /**
   * A list of votes reduces to Accept exactly when one of them accepts, and
   * then to the smallest accepting pid; otherwise to the pid -1 and Reject.
   */
  lemma {:induction false} FoldVotes(votes: seq<PidFlag>)
    ensures Fold(votes).flag == Accept <==> exists k :: 0 <= k < |votes| && votes[k].flag == Accept
    ensures Fold(votes).flag == Accept ==>
      (exists k :: 0 <= k < |votes| && votes[k].flag == Accept && votes[k].pid == Fold(votes).pid) &&
      forall k :: 0 <= k < |votes| && votes[k].flag == Accept ==> Fold(votes).pid <= votes[k].pid
    ensures Fold(votes).flag != Accept ==> Fold(votes) == NoVote
    decreases |votes|
  {
    if votes != [] {
      var init := votes[..|votes| - 1];
      FoldVotes(init);
      assert forall k :: 0 <= k < |init| ==> init[k] == votes[k];
      if Fold(init).flag == Accept {
        var k :| 0 <= k < |init| && init[k].flag == Accept && init[k].pid == Fold(init).pid;
        assert votes[k] == init[k];
      }
    }
  }

  /**
   * Splitting the votes anywhere and combining the two partial results gives
   * the same vote, so every reduction order the communicator picks agrees.
   */
  lemma {:induction false} FoldSplit(xs: seq<PidFlag>, ys: seq<PidFlag>)
    ensures Fold(xs + ys) == Combine(Fold(xs), Fold(ys))
    decreases |ys|
  {
    if ys == [] {
      assert xs + ys == xs;
      FoldVotes(xs);
    } else {
      var ys' := ys[..|ys| - 1];
      assert (xs + ys)[..|xs + ys| - 1] == xs + ys';
      FoldSplit(xs, ys');
      CombineAssociates(Fold(xs), Fold(ys'), ys[|ys| - 1]);
    }
  }
}
