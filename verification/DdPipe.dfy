/** dd as a machine: reads of any size into one buffer, conversion, writes of any size from another. */
module DdPipe {
  import opened DdRecords
  import opened Sequences

  datatype Mode = Plain | Block | Unblock      // which of def, block and unblock is cfunc

  function Larger(a: nat, b: nat): nat {
    if a < b then b else a
  }

  /** memmove */
  method Memmove(dst: array<Byte>, d: nat, src: array<Byte>, s: nat, n: nat)
    requires d + n <= dst.Length && s + n <= src.Length
    modifies dst
    ensures dst[d..d + n] == old(src[s..s + n])
    ensures dst[..d] == old(dst[..d])
  {
    var t := src[s..s + n];
    var i := 0;
    while i < n
      invariant 0 <= i <= n && dst[d..d + i] == t[..i] && dst[..d] == old(dst[..d])
    {
      dst[d + i] := t[i];
      i := i + 1;
    }
  }

  /** memset */
  method Memset(dst: array<Byte>, d: nat, c: Byte, n: nat)
    requires d + n <= dst.Length
    modifies dst
    ensures dst[d..d + n] == Fill(n, c)
    ensures dst[..d] == old(dst[..d])
  {
    var i := 0;
    while i < n
      invariant 0 <= i <= n && dst[..d] == old(dst[..d])
      invariant forall k :: d <= k < d + i ==> dst[k] == c
    {
      dst[d + i] := c;
      i := i + 1;
    }
  }

  class Dd {
    const mode: Mode
    const ibs: nat
    const obs: nat
    const cbsz: nat
    const ctab: Byte -> Byte      // the identity, when there is no table
    const inDb: array<Byte>       // in.db, and where in.dbp points in it
    const outDb: array<Byte>
    var inDbp: nat
    var inDbcnt: nat
    var inDbrcnt: nat
    var outDbp: nat
    var outDbcnt: nat
    var intrunc: bool
    var written: Bytes            // what the calls of write have taken

    /** The sizes that setup gives the buffers. */
    ghost predicate Sized() {
      && ibs > 0 && obs > 0 && (mode != Plain ==> cbsz > 0) && (mode == Unblock ==> Identity(ctab))
      && (mode == Plain ==> inDb == outDb && inDb.Length == obs + ibs - 1)
      && (mode != Plain ==> inDb != outDb && inDb.Length == Larger(ibs, cbsz) + cbsz && outDb.Length == obs + cbsz)
    }

    /** The input that has not been converted, and the output that has not been written. */
    ghost function Pending(): Bytes
      requires inDbcnt <= inDbp <= inDb.Length
      reads this`inDbcnt, this`inDbp, inDb
    {
      inDb[inDbp - inDbcnt..inDbp]
    }

    ghost function Out(): Bytes
      requires outDbcnt <= outDb.Length
      reads this`written, this`outDbcnt, outDb
    {
      written + outDb[..outDbcnt]
    }

    // ---- dd_out ----

    /** One block, in as many writes as it takes. */
    method WriteBlock(outp: nat, n: nat)
      requires 0 < n && outp + n <= outDb.Length
      modifies this`written
      ensures written == old(written) + outDb[outp..outp + n]
    {
      var p: nat, cnt: nat := outp, n;
      ghost var data := outDb[..];
      JoinSlices(data, outp, outp, outp);
      while cnt > 0
        invariant p + cnt == outp + n && outp <= p && written == old(written) + data[outp..p]
      {
        var nw: nat :| 1 <= nw <= cnt;        // what write returns
        JoinSlices(data, outp, p, p + nw);
        written := written + outDb[p..p + nw];
        p, cnt := p + nw, cnt - nw;
      }
    }

    /** The blocks that dd_out writes. */
    method WriteBlocks(force: bool)
      requires obs > 0 && outDbp == outDbcnt <= outDb.Length && outDbcnt > 0 && (force || outDbcnt >= obs)
      modifies this`written, this`outDbcnt
      ensures outDbcnt <= outDbp && outDbcnt < obs && (force ==> outDbcnt == 0)
      ensures written == old(written) + outDb[0..outDbp - outDbcnt]
    {
      var outp: nat := 0;
      var n := if force then outDbcnt else obs;
      ghost var data := outDb[..];
      while true
        invariant outp + outDbcnt == outDbp && 0 < n <= outDbcnt && (force ==> n == outDbcnt)
        invariant written == old(written) + data[0..outp]
        decreases outDbcnt
      {
        WriteBlock(outp, n);
        assert outDb[outp..outp + n] == data[outp..outp + n];
        JoinSlices(data, 0, outp, outp + n);
        outp, outDbcnt := outp + n, outDbcnt - n;
        if outDbcnt < obs {
          break;
        }
        n := obs;
      }
    }

    /** dd_out: whole blocks are written, or all there is when forced, and what is left moves to the
        front. */
    method Output(force: bool)
      requires obs > 0 && outDbp == outDbcnt <= outDb.Length && outDbcnt > 0 && (force || outDbcnt >= obs)
      modifies this`written, this`outDbp, this`outDbcnt, outDb
      ensures outDbp == outDbcnt <= outDb.Length && outDbcnt < obs && (force ==> outDbcnt == 0)
      ensures Out() == old(Out())
    {
      WriteBlocks(force);
      JoinSlices(outDb[..], 0, outDbp - outDbcnt, outDbp);
      MoveToFront();
      outDbp := outDbcnt;
    }

    /** Whatever dd_out has not written goes to the front of the buffer. */
    method MoveToFront()
      requires outDbcnt <= outDbp <= outDb.Length
      modifies outDb
      ensures outDb[..outDbcnt] == old(outDb[outDbp - outDbcnt..outDbp])
    {
      if outDbcnt > 0 {
        Memmove(outDb, 0, outDb, outDbp - outDbcnt, outDbcnt);
        assert outDb[0..0 + outDbcnt] == outDb[..outDbcnt];
      }
    }

    // ---- conv=block ----

    /** The buffers in the middle of a conversion; d is the input at hand. */
    ghost predicate Converting(d: Bytes)
      reads this`inDbcnt, this`inDbp, this`outDbcnt, this`outDbp, inDb
    {
      && Sized() && mode != Plain
      && inDbcnt <= inDbp <= inDb.Length && outDbp == outDbcnt < obs && d == Pending()
    }

    /** What block owes for the whole input is what has come out, and what it will yet make of the input
        at hand and the rest. */
    ghost predicate BlockFlow(total: Bytes, d: Bytes, rest: Bytes)
      requires outDbcnt <= outDb.Length
      reads this`intrunc, this`written, this`outDbcnt, outDb
    {
      if intrunc then d == [] && BlockedBy(total, cbsz, ctab) == Out() + BlockedBy(AfterLine(rest), cbsz, ctab)
      else BlockedBy(total, cbsz, ctab) == Out() + BlockedBy(d + rest, cbsz, ctab)
    }

    /** A line is copied to the output buffer, translated, up to its end or to maxlen bytes. */
    method CopyLine(maxlen: nat, ghost d: Bytes) returns (cnt: nat, ended: bool)
      requires Converting(d) && maxlen <= |d| && maxlen <= cbsz
      modifies outDb
      ensures Converting(d) && Out() == old(Out())
      ensures cnt <= maxlen && NoNewline(d, 0, cnt)
      ensures (if ended then cnt < maxlen && d[cnt] == NEWLINE else cnt == maxlen)
      ensures outDb[outDbcnt..outDbcnt + cnt] == Translated(d[..cnt], ctab)
    {
      hide Translated;
      ghost var before := outDb[..];
      cnt, ended := 0, false;
      while cnt < maxlen && !ended
        invariant cnt <= maxlen && NoNewline(d, 0, cnt)
        invariant ended ==> cnt < maxlen && d[cnt] == NEWLINE
        invariant forall k :: 0 <= k < outDbcnt ==> outDb[k] == before[k]
        invariant forall k :: 0 <= k < cnt ==> outDb[outDbcnt + k] == ctab(d[k])
        decreases maxlen - cnt, !ended
      {
        var ch := inDb[inDbp - inDbcnt + cnt];
        if ch == NEWLINE {
          ended := true;
        } else {
          outDb[outDbcnt + cnt] := ctab(ch);
          cnt := cnt + 1;
        }
      }
      SliceTranslated(outDb[..], before, outDbcnt, d, cnt, ctab);
    }

    /** What stands in the output buffer is padded to a record, with translated spaces. */
    method PadRecord(cnt: nat, ghost part: Bytes)
      requires Sized() && mode != Plain && outDbcnt < obs && cnt <= cbsz
      requires outDb[outDbcnt..outDbcnt + cnt] == part
      modifies outDb
      ensures outDb[..outDbcnt + cbsz] == old(outDb[..outDbcnt]) + (part + Fill(cbsz - cnt, ctab(SPACE)))
    {
      ghost var before := outDb[..];
      Memset(outDb, outDbcnt + cnt, ctab(SPACE), cbsz - cnt);
      PieceTogether(before, outDb[..], outDbcnt, cnt, cbsz);
    }

    /** The padding, and the counts of the output buffer. */
    method FinishRecord(cnt: nat, ghost line: Bytes)
      requires Sized() && mode != Plain && outDbp == outDbcnt < obs
      requires cnt <= cbsz && |line| >= cnt && (|line| > cnt ==> cnt == cbsz)
      requires outDb[outDbcnt..outDbcnt + cnt] == Translated(line[..cnt], ctab)
      modifies this`written, this`outDbp, this`outDbcnt, outDb
      ensures outDbp == outDbcnt < obs && Out() == old(Out()) + Translated(Record(line, cbsz), ctab)
    {
      TranslatedRecord(line, cnt, cbsz, ctab);
      PadRecord(cnt, Translated(line[..cnt], ctab));
      outDbp, outDbcnt := outDbp + cbsz, outDbcnt + cbsz;
      assert Out() == old(Out()) + Translated(Record(line, cbsz), ctab);
      if outDbcnt >= obs {
        Output(false);
      }
    }

    /** The search for a newline in the input buffer. */
    method FindNewline(i: nat, j: nat) returns (k: nat)
      requires i <= j <= inDb.Length
      ensures i <= k <= j && NoNewline(inDb[..], i, k) && (k < j ==> inDb[k] == NEWLINE)
    {
      k := i;
      while k < j && inDb[k] != NEWLINE
        invariant i <= k <= j && NoNewline(inDb[..], i, k)
      {
        k := k + 1;
      }
    }

    /** What is left of a line after its record is full: n bytes of d are tossed, and then the newline, or
        else there is none at hand and the next reads have more to toss. */
    method TossLine(ghost d: Bytes) returns (ghost n: nat)
      requires inDbcnt <= inDbp <= inDb.Length && Pending() == d && !intrunc
      modifies this`inDbcnt, this`intrunc
      ensures inDbcnt <= inDbp && n <= |d| && NoNewline(d, 0, n)
      ensures if intrunc then n == |d| && inDbcnt == 0 else n < |d| && d[n] == NEWLINE && Pending() == d[n + 1..]
    {
      var lo := inDbp - inDbcnt;
      var k := FindNewline(lo, inDbp);
      n := k - lo;
      SliceNoNewline(inDb[..], lo, inDbp, k, n);
      if k == inDbp {
        inDbcnt := 0;
        intrunc := true;
      } else {
        inDbcnt := inDbp - k;
        inDbcnt := inDbcnt - 1;
        Tail(inDb[..], lo, inDbp, n + 1, inDbp - inDbcnt);
      }
    }

    /** n bytes of the input at hand are done with. */
    method Consume(n: nat, ghost d: Bytes)
      requires inDbcnt <= inDbp <= inDb.Length && d == Pending() && n <= |d|
      modifies this`inDbcnt
      ensures inDbcnt == old(inDbcnt) - n && Pending() == d[n..]
    {
      inDbcnt := inDbcnt - n;
    }

    /** A line that has ended within its record. */
    method EndedLine(cnt: nat, ghost total: Bytes, ghost d: Bytes, ghost rest: Bytes) returns (ghost d': Bytes)
      requires Converting(d) && mode == Block && !intrunc && BlockFlow(total, d, rest)
      requires cnt < |d| && cnt <= cbsz && NoNewline(d, 0, cnt) && d[cnt] == NEWLINE
      requires outDb[outDbcnt..outDbcnt + cnt] == Translated(d[..cnt], ctab)
      modifies this`inDbcnt, this`written, this`outDbp, this`outDbcnt, outDb
      ensures Converting(d') && |d'| < |d| && BlockFlow(total, d', rest)
    {
      hide BlockedBy, Record, Translated, NoNewline;
      d' := d[cnt + 1..];
      ghost var line := d[..cnt];
      assert line[..cnt] == line;
      WholeLineBy(d, cnt, rest, cbsz, ctab);
      Associate(Out(), Translated(Record(line, cbsz), ctab), BlockedBy(d' + rest, cbsz, ctab));
      Consume(cnt + 1, d);
      FinishRecord(cnt, line);
    }

    /** A line that fills its record; as much of it as is at hand is tossed. */
    method FullRecord(ghost total: Bytes, ghost d: Bytes, ghost rest: Bytes) returns (ghost d': Bytes)
      requires Converting(d) && mode == Block && !intrunc && BlockFlow(total, d, rest)
      requires cbsz <= |d| && NoNewline(d, 0, cbsz) && outDb[outDbcnt..outDbcnt + cbsz] == Translated(d[..cbsz], ctab)
      modifies this`inDbcnt, this`intrunc, this`written, this`outDbp, this`outDbcnt, outDb
      ensures Converting(d') && |d'| < |d| && BlockFlow(total, d', rest)
    {
      hide BlockedBy, Record, Translated, NoNewline, AfterLine;
      Consume(cbsz, d);
      ghost var n := TossLine(d[cbsz..]);
      ghost var line;
      line, d' := Tossed(d, rest, cbsz, n, intrunc, ctab);
      Associate(Out(), Translated(Record(line, cbsz), ctab),
                BlockedBy(if intrunc then AfterLine(rest) else d' + rest, cbsz, ctab));
      FinishRecord(cbsz, line);
    }

    /** One record of the loop of block; or none, if the input at hand is short of one and has no newline:
        then it moves to the front of the buffer. */
    method BlockTurn(ghost total: Bytes, ghost d: Bytes, ghost rest: Bytes) returns (stop: bool, ghost d': Bytes)
      requires Converting(d) && mode == Block && !intrunc && d != [] && BlockFlow(total, d, rest)
      modifies this`inDbcnt, this`intrunc, this`written, this`outDbp, this`outDbcnt, inDb, outDb
      ensures Sized() && outDbp == outDbcnt < obs && BlockFlow(total, d', rest)
      ensures stop ==> d' == d && inDbcnt == |d| < cbsz && !intrunc && inDb[..inDbcnt] == d && Newlineless(d)
      ensures !stop ==> Converting(d') && |d'| < |d|
    {
      hide BlockedBy, NoNewline, AfterLine;
      var maxlen := if cbsz < inDbcnt then cbsz else inDbcnt;
      var cnt, ended := CopyLine(maxlen, d);
      stop := !ended && inDbcnt < cbsz;
      if stop {
        d' := d;
        Memmove(inDb, 0, inDb, inDbp - inDbcnt, inDbcnt);
      } else if ended {
        d' := EndedLine(cnt, total, d, rest);
      } else {
        d' := FullRecord(total, d, rest);
      }
    }

    /** What the buffers are like between two reads: the input at hand lies at the front, and is less than a
        record without a newline. */
    ghost predicate BlockReady(d: Bytes)
      reads this, inDb
    {
      Converting(d) && inDbp == inDbcnt < cbsz && Newlineless(d) && (intrunc ==> d == [])
    }

    /** While truncating, the line that was cut is skipped to its end, if that has come. */
    method SkipTruncated(ghost total: Bytes, ghost d: Bytes, ghost rest: Bytes) returns (ghost d': Bytes)
      requires Converting(d) && mode == Block && intrunc && inDbrcnt == inDbp == inDbcnt
      requires BlockedBy(total, cbsz, ctab) == Out() + BlockedBy(AfterLine(d + rest), cbsz, ctab)
      modifies this`inDbcnt, this`inDbp, this`intrunc
      ensures Converting(d') && BlockFlow(total, d', rest) && (intrunc ==> inDbp == 0)
    {
      hide BlockedBy, AfterLine, LineLength;
      var k := FindNewline(0, inDbrcnt);
      SliceNoNewline(inDb[..], 0, inDbp, k, k);
      if k == inDbrcnt {
        SkipOn(d, rest);
        inDbcnt, inDbp, d' := 0, 0, [];
      } else {
        SkipTo(d, k, rest);
        intrunc := false;
        d' := d[k + 1..];
        inDbcnt, inDbp := inDbrcnt - k - 1, inDbrcnt;
        Tail(inDb[..], 0, inDbp, k + 1, inDbp - inDbcnt);
      }
    }

    /** The loop of block goes on, or has stopped at a line whose end has not come. */
    ghost predicate InBlock(total: Bytes, d: Bytes, rest: Bytes, stop: bool)
      reads this, inDb, outDb
    {
      && Sized() && mode == Block && outDbp == outDbcnt < obs && BlockFlow(total, d, rest)
      && if stop then inDbcnt == |d| < cbsz && !intrunc && inDb[..inDbcnt] == d && Newlineless(d) else Converting(d)
    }

    /** The loop of block. */
    method BlockRecords(ghost total: Bytes, ghost d: Bytes, ghost rest: Bytes) returns (ghost d': Bytes)
      requires Converting(d) && mode == Block && !intrunc && BlockFlow(total, d, rest)
      modifies this`inDbcnt, this`inDbp, this`intrunc, this`written, this`outDbp, this`outDbcnt, inDb, outDb
      ensures BlockReady(d') && BlockFlow(total, d', rest)
    {
      var stop := false;
      d' := d;
      while inDbcnt > 0 && !stop
        invariant InBlock(total, d', rest, stop)
        decreases |d'|, !stop
      {
        stop, d' := BlockNext(total, d', rest);
      }
      EndOfBlock(total, d', rest, stop);
    }

    method BlockNext(ghost total: Bytes, ghost d: Bytes, ghost rest: Bytes) returns (stop: bool, ghost d': Bytes)
      requires InBlock(total, d, rest, false) && inDbcnt > 0
      modifies this`inDbcnt, this`intrunc, this`written, this`outDbp, this`outDbcnt, inDb, outDb
      ensures InBlock(total, d', rest, stop) && if stop then |d'| == |d| else |d'| < |d|
    {
      hide BlockedBy, AfterLine, NoNewline;
      stop, d' := BlockTurn(total, d, rest);
    }

    /** The next read goes after what is kept at the front. */
    method EndOfBlock(ghost total: Bytes, ghost d: Bytes, ghost rest: Bytes, ghost stop: bool)
      requires InBlock(total, d, rest, stop) && (inDbcnt == 0 || stop)
      modifies this`inDbp
      ensures BlockReady(d) && BlockFlow(total, d, rest)
    {
      hide BlockedBy, AfterLine, BlockFlow, InBlock, Newlineless, Pending, Out;
      AtFront(total, d, rest, stop);
      PointAfter(d);
    }

    method PointAfter(ghost d: Bytes)
      requires inDbcnt <= inDb.Length && inDb[..inDbcnt] == d
      modifies this`inDbp
      ensures inDbp == inDbcnt && Pending() == d
    {
      inDbp := inDbcnt;
    }

    lemma AtFront(total: Bytes, d: Bytes, rest: Bytes, stop: bool)
      requires InBlock(total, d, rest, stop) && (inDbcnt == 0 || stop)
      ensures Sized() && mode == Block && outDbp == outDbcnt < obs && BlockFlow(total, d, rest)
      ensures inDbcnt == |d| < cbsz && inDb[..inDbcnt] == d && Newlineless(d) && (intrunc ==> d == [])
    {
      hide BlockedBy, AfterLine, NoNewline;
      if !stop {
        assert d == [];
        NoNewlineInNothing();
      }
    }

    /** block */
    method ConvertBlock(ghost total: Bytes, ghost d: Bytes, ghost rest: Bytes) returns (ghost d': Bytes)
      requires Converting(d) && mode == Block && (intrunc ==> inDbrcnt == inDbp == inDbcnt)
      requires BlockedBy(total, cbsz, ctab)
               == Out() + BlockedBy(if intrunc then AfterLine(d + rest) else d + rest, cbsz, ctab)
      modifies this`inDbcnt, this`inDbp, this`intrunc, this`written, this`outDbp, this`outDbcnt, inDb, outDb
      ensures BlockReady(d') && BlockFlow(total, d', rest)
    {
      hide BlockedBy, AfterLine, NoNewline;
      d' := d;
      if intrunc {
        d' := SkipTruncated(total, d, rest);
        if intrunc {
          NoNewlineInNothing();
          return;
        }
      }
      d' := BlockRecords(total, d', rest);
    }

    lemma NoNewlineInNothing()
      ensures Newlineless([])
    {
    }

    /** What is left of the input as a record, of which only the padding is translated.  (out.dbp, which
        dd_out(1) has no use for, is kept in step.) */
    method LastRecord(ghost d: Bytes)
      requires Converting(d) && d != [] && |d| < cbsz
      modifies this`outDbp, this`outDbcnt, outDb
      ensures outDbp == outDbcnt <= outDb.Length && Out() == old(Out()) + (d + Fill(cbsz - |d|, ctab(SPACE)))
    {
      Memmove(outDb, outDbp, inDb, inDbp - inDbcnt, inDbcnt);
      ghost var before := outDb[..outDbcnt];
      Associate(written, before, d + Fill(cbsz - |d|, ctab(SPACE)));
      PadRecord(inDbcnt, d);
      outDbp, outDbcnt := outDbp + cbsz, outDbcnt + cbsz;
    }

    /** block_close: what is left of the input makes a last record. */
    method BlockClose(ghost total: Bytes, ghost d: Bytes)
      requires BlockReady(d) && mode == Block && BlockFlow(total, d, [])
      modifies this`outDbp, this`outDbcnt, outDb
      ensures outDbp == outDbcnt <= outDb.Length && Out() == BlockedBy(total, cbsz, ctab)
    {
      LastLine(d, cbsz, ctab);
      assert d + [] == d && Out() + [] == Out();
      hide BlockedBy, AfterLine, NoNewline, Record;
      if inDbcnt > 0 {
        LastRecord(d);
      }
    }

    // ---- conv=unblock ----

    ghost predicate UnblockFlow(total: Bytes, d: Bytes, rest: Bytes)
      requires outDbcnt <= outDb.Length && cbsz > 0
      reads this`written, this`outDbcnt, outDb
    {
      Unblocked(total, cbsz) == Out() + Unblocked(d + rest, cbsz)
    }

    /** The search for the last byte of a record that is not a space. */
    method TrimEnd(i: nat, j: nat) returns (k: nat)
      requires i <= j <= inDb.Length
      ensures i <= k <= j && inDb[i..k] == Trimmed(inDb[i..j])
    {
      k := j;
      while k > i && inDb[k - 1] == SPACE
        invariant i <= k <= j && forall m :: k <= m < j ==> inDb[m] == SPACE
      {
        k := k - 1;
      }
      TrimmedSlice(inDb[..], i, j, k);
    }

    /** Bytes of the input are appended to the output. */
    method PutOut(i: nat, cnt: nat)
      requires inDb != outDb && outDbp == outDbcnt && outDbcnt + cnt <= outDb.Length && i + cnt <= inDb.Length
      modifies this`outDbp, this`outDbcnt, outDb
      ensures outDbp == outDbcnt == old(outDbcnt) + cnt && Out() == old(Out()) + inDb[i..i + cnt]
    {
      Memmove(outDb, outDbp, inDb, i, cnt);
      JoinSlices(outDb[..], 0, outDbcnt, outDbcnt + cnt);
      outDbp, outDbcnt := outDbp + cnt, outDbcnt + cnt;
    }

    /** One byte is. */
    method PutByte(c: Byte)
      requires outDbp == outDbcnt < outDb.Length
      modifies this`outDbp, this`outDbcnt, outDb
      ensures outDbp == outDbcnt == old(outDbcnt) + 1 && Out() == old(Out()) + [c]
    {
      outDb[outDbp] := c;
      outDbp, outDbcnt := outDbp + 1, outDbcnt + 1;
    }

    /** A record goes out as a line. */
    method EmitLine(i: nat, len: nat, ghost record: Bytes)
      requires Sized() && mode == Unblock && outDbp == outDbcnt < obs && len <= cbsz
      requires i + len <= inDb.Length && inDb[i..i + len] == record
      modifies this`outDbp, this`outDbcnt, outDb
      ensures 0 < outDbp == outDbcnt <= outDb.Length && Out() == old(Out()) + (Trimmed(record) + [NEWLINE])
    {
      hide Trimmed;
      var k := TrimEnd(i, i + len);
      Associate(Out(), Trimmed(record), [NEWLINE]);
      if k > i {
        PutOut(i, k - i);
      } else {
        assert Out() + [] == Out();
      }
      PutByte(NEWLINE);
    }

    /** A whole record goes out, and a block if it is full. */
    method PutLine(i: nat, ghost record: Bytes)
      requires Sized() && mode == Unblock && outDbp == outDbcnt < obs
      requires i + cbsz <= inDb.Length && inDb[i..i + cbsz] == record
      modifies this`written, this`outDbp, this`outDbcnt, outDb
      ensures outDbp == outDbcnt < obs && Out() == old(Out()) + (Trimmed(record) + [NEWLINE])
    {
      EmitLine(i, cbsz, record);
      if outDbcnt >= obs {
        Output(false);
      }
    }

    /** One record of the loop of unblock. */
    method UnblockTurn(ghost total: Bytes, ghost d: Bytes, ghost rest: Bytes) returns (ghost d': Bytes)
      requires Converting(d) && mode == Unblock && cbsz <= |d| && UnblockFlow(total, d, rest)
      modifies this`inDbcnt, this`written, this`outDbp, this`outDbcnt, outDb
      ensures Converting(d') && |d'| < |d| && UnblockFlow(total, d', rest)
    {
      hide Unblocked, Trimmed;
      FirstRecordOut(d, rest, cbsz);
      ghost var record := d[..cbsz];
      d' := d[cbsz..];
      Associate(Out(), Trimmed(record) + [NEWLINE], Unblocked(d' + rest, cbsz));
      PutLine(inDbp - inDbcnt, record);
      Consume(cbsz, d);
    }

    /** Between two reads, less than a record lies at the front of the buffer. */
    ghost predicate UnblockReady(d: Bytes)
      reads this`inDbcnt, this`inDbp, this`outDbcnt, this`outDbp, inDb
    {
      Converting(d) && inDbp == inDbcnt < cbsz
    }

    /** unblock */
    method ConvertUnblock(ghost total: Bytes, ghost d: Bytes, ghost rest: Bytes) returns (ghost d': Bytes)
      requires Converting(d) && mode == Unblock && UnblockFlow(total, d, rest)
      modifies this`inDbcnt, this`inDbp, this`written, this`outDbp, this`outDbcnt, inDb, outDb
      ensures UnblockReady(d') && UnblockFlow(total, d', rest)
    {
      hide Unblocked;
      d' := d;
      while inDbcnt >= cbsz
        invariant Converting(d') && UnblockFlow(total, d', rest)
        decreases |d'|
      {
        d' := UnblockTurn(total, d', rest);
      }
      KeepRest(d');
    }

    /** Less than a record is kept at the front, for the next read to go on with. */
    method KeepRest(ghost d: Bytes)
      requires Converting(d)
      modifies this`inDbp, inDb
      ensures Converting(d) && inDbp == inDbcnt
    {
      if inDbcnt > 0 {
        Memmove(inDb, 0, inDb, inDbp - inDbcnt, inDbcnt);
        assert inDb[0..0 + inDbcnt] == inDb[..inDbcnt];
      }
      PointAfter(d);
    }

    /** unblock_close: a short record makes a last line. */
    method UnblockClose(ghost total: Bytes, ghost d: Bytes)
      requires UnblockReady(d) && mode == Unblock && UnblockFlow(total, d, [])
      modifies this`outDbp, this`outDbcnt, outDb
      ensures outDbp == outDbcnt <= outDb.Length && Out() == Unblocked(total, cbsz)
    {
      assert d + [] == d && Out() + [] == Out();
      if inDbcnt > 0 {
        EmitLine(0, inDbcnt, d);
      }
    }

    // ---- no conversion ----

    /** Input and output share the buffer, which holds less than a block between two reads. */
    ghost predicate PlainReady(d: Bytes)
      reads this`inDbcnt, this`inDbp, this`outDbcnt, this`outDbp, inDb
    {
      Sized() && mode == Plain && inDbp == inDbcnt == outDbp == outDbcnt == |d| < obs && d == inDb[..inDbcnt]
    }

    ghost predicate PlainFlow(total: Bytes, d: Bytes, rest: Bytes)
      reads this`written
    {
      Translated(total, ctab) == (written + d) + Translated(rest, ctab)
    }

    /** The bytes of the last read are translated where they stand. */
    method TranslateRead(ghost d: Bytes, ghost chunk: Bytes)
      requires inDbrcnt == |chunk| && inDbcnt == inDbp == |d| + |chunk| <= inDb.Length && inDb[..inDbcnt] == d + chunk
      modifies inDb
      ensures inDb[..inDbcnt] == d + Translated(chunk, ctab)
    {
      var inp := inDbp - inDbrcnt;
      while inp < inDbp
        invariant |d| <= inp <= inDbp
        invariant forall k :: 0 <= k < inDbcnt ==>
                  inDb[k] == if |d| <= k < inp then ctab((d + chunk)[k]) else (d + chunk)[k]
      {
        inDb[inp] := ctab(inDb[inp]);
        inp := inp + 1;
      }
    }

    /** def */
    method ConvertPlain(ghost total: Bytes, ghost d: Bytes, ghost chunk: Bytes, ghost rest: Bytes)
      returns (ghost d': Bytes)
      requires Sized() && mode == Plain && inDbrcnt == |chunk| > 0
      requires inDbcnt == inDbp == |d| + |chunk| <= inDb.Length && inDb[..inDbcnt] == d + chunk
      requires PlainFlow(total, d, chunk + rest)
      modifies this`inDbcnt, this`inDbp, this`written, this`outDbp, this`outDbcnt, inDb
      ensures PlainReady(d') && PlainFlow(total, d', rest)
    {
      TranslateRead(d, chunk);
      TranslatedParts(chunk, rest, ctab);
      Associate(written + d, Translated(chunk, ctab), Translated(rest, ctab));
      Associate(written, d, Translated(chunk, ctab));
      outDbp, outDbcnt := inDbp, inDbcnt;
      hide Translated;
      if inDbcnt >= obs {
        Output(false);
        inDbp, inDbcnt := outDbp, outDbcnt;
      }
      d' := inDb[..inDbcnt];
    }

    // ---- dd_in and dd_close ----

    /** setup */
    constructor (mode: Mode, ibs: nat, obs: nat, cbsz: nat, table: Byte -> Byte)
      requires ibs > 0 && obs > 0 && (mode != Plain ==> cbsz > 0) && (mode == Unblock ==> Identity(table))
      ensures Ready([]) && written == [] && !intrunc && outDbcnt == 0 && fresh(inDb) && fresh(outDb)
      ensures this.mode == mode && this.ibs == ibs && this.cbsz == cbsz && this.ctab == table
    {
      this.mode, this.ibs, this.obs, this.cbsz, this.ctab := mode, ibs, obs, cbsz, table;
      var input := new Byte[if mode == Plain then obs + ibs - 1 else Larger(ibs, cbsz) + cbsz];
      if mode == Plain {
        inDb, outDb := input, input;
      } else {
        var output := new Byte[obs + cbsz];
        inDb, outDb := input, output;
      }
      inDbp, inDbcnt, inDbrcnt, outDbp, outDbcnt, intrunc, written := 0, 0, 0, 0, 0, false, [];
      new;
      NoNewlineInNothing();
    }

    /** Between two reads, d is the input at hand. */
    ghost predicate Ready(d: Bytes)
      reads this, inDb
    {
      match mode
      case Plain => PlainReady(d)
      case Block => BlockReady(d)
      case Unblock => UnblockReady(d)
    }

    /** What has been written or is at hand, and what the rest will yet give, is what the whole input
        gives. */
    ghost predicate Flow(total: Bytes, d: Bytes, rest: Bytes)
      requires outDbcnt <= outDb.Length && (mode == Unblock ==> cbsz > 0)
      reads this, outDb
    {
      match mode
      case Plain => PlainFlow(total, d, rest)
      case Block => BlockFlow(total, d, rest)
      case Unblock => UnblockFlow(total, d, rest)
    }

    /** What dd makes of a whole input. */
    ghost function Converted(total: Bytes): Bytes
      requires mode == Unblock ==> cbsz > 0
    {
      match mode
      case Plain => Translated(total, ctab)
      case Block => BlockedBy(total, cbsz, ctab)
      case Unblock => Unblocked(total, cbsz)
    }

    /** A read: there is room for it after the input at hand. */
    method Read(chunk: Bytes, ghost d: Bytes)
      requires inDbp == inDbcnt == |d| && |d| + |chunk| <= inDb.Length && inDb[..inDbcnt] == d
      modifies this`inDbp, this`inDbcnt, this`inDbrcnt, inDb
      ensures inDbrcnt == |chunk| && inDbp == inDbcnt == |d| + |chunk| && inDb[..inDbcnt] == d + chunk
    {
      var i := 0;
      while i < |chunk|
        invariant 0 <= i <= |chunk| && inDbp == inDbcnt == |d|
        invariant forall k :: 0 <= k < |d| + i ==> inDb[k] == (d + chunk)[k]
      {
        inDb[inDbp + i] := chunk[i];
        i := i + 1;
      }
      inDbcnt, inDbrcnt := inDbcnt + |chunk|, |chunk|;
      inDbp := inDbp + |chunk|;
    }

    method NextPlain(chunk: Bytes, ghost total: Bytes, ghost d: Bytes, ghost rest: Bytes) returns (ghost d': Bytes)
      requires PlainReady(d) && 0 < |chunk| <= ibs && PlainFlow(total, d, chunk + rest)
      modifies this`inDbp, this`inDbcnt, this`inDbrcnt, this`written, this`outDbp, this`outDbcnt, inDb
      ensures PlainReady(d') && PlainFlow(total, d', rest)
    {
      Read(chunk, d);
      d' := ConvertPlain(total, d, chunk, rest);
    }

    method NextBlock(chunk: Bytes, ghost total: Bytes, ghost d: Bytes, ghost rest: Bytes) returns (ghost d': Bytes)
      requires BlockReady(d) && mode == Block && 0 < |chunk| <= ibs && BlockFlow(total, d, chunk + rest)
      modifies this`inDbp, this`inDbcnt, this`inDbrcnt, this`intrunc
      modifies this`written, this`outDbp, this`outDbcnt, inDb, outDb
      ensures BlockReady(d') && BlockFlow(total, d', rest)
    {
      hide BlockedBy, AfterLine, NoNewline;
      Associate(d, chunk, rest);
      if intrunc {
        assert d + chunk == chunk;
      }
      Read(chunk, d);
      d' := ConvertBlock(total, d + chunk, rest);
    }

    method NextUnblock(chunk: Bytes, ghost total: Bytes, ghost d: Bytes, ghost rest: Bytes) returns (ghost d': Bytes)
      requires UnblockReady(d) && mode == Unblock && 0 < |chunk| <= ibs
      requires cbsz > 0 && UnblockFlow(total, d, chunk + rest)
      modifies this`inDbp, this`inDbcnt, this`inDbrcnt, this`written, this`outDbp, this`outDbcnt, inDb, outDb
      ensures UnblockReady(d') && UnblockFlow(total, d', rest)
    {
      hide Unblocked;
      Associate(d, chunk, rest);
      Read(chunk, d);
      d' := ConvertUnblock(total, d + chunk, rest);
    }

    /** One turn of dd_in: a read of any size up to ibs, and its conversion. */
    method ReadAndConvert(chunk: Bytes, ghost total: Bytes, ghost d: Bytes, ghost rest: Bytes) returns (ghost d': Bytes)
      requires Ready(d) && 0 < |chunk| <= ibs && outDbcnt <= outDb.Length
      requires (mode == Unblock ==> cbsz > 0) && Flow(total, d, chunk + rest)
      modifies this`inDbp, this`inDbcnt, this`inDbrcnt, this`intrunc
      modifies this`written, this`outDbp, this`outDbcnt, inDb, outDb
      ensures Ready(d') && outDbcnt <= outDb.Length && (mode == Unblock ==> cbsz > 0) && Flow(total, d', rest)
    {
      hide BlockedBy, Unblocked, Translated, AfterLine, NoNewline;
      match mode {
        case Plain =>
          d' := NextPlain(chunk, total, d, rest);
        case Block =>
          d' := NextBlock(chunk, total, d, rest);
        case Unblock =>
          d' := NextUnblock(chunk, total, d, rest);
      }
    }

    /** dd_close */
    method Close(ghost total: Bytes, ghost d: Bytes)
      requires Ready(d) && outDbcnt <= outDb.Length && (mode == Unblock ==> cbsz > 0) && Flow(total, d, [])
      modifies this`written, this`outDbp, this`outDbcnt, outDb
      ensures (mode == Unblock ==> cbsz > 0) && written == Converted(total)
    {
      hide BlockedBy, Unblocked, AfterLine, NoNewline;
      match mode {
        case Plain =>
          assert Translated([], ctab) == [] && (written + d) + [] == written + d;
          if inDbcnt > 0 {
            outDbcnt := inDbcnt;
          }
        case Block =>
          BlockClose(total, d);
        case Unblock =>
          UnblockClose(total, d);
      }
      assert Out() == Converted(total) && outDbp == outDbcnt <= outDb.Length && obs > 0;
      if outDbcnt > 0 {
        Output(true);
      }
      assert Out() == written;
    }

    /** main, from setup on: however the input is cut into reads and the output into writes, what is
        written is what the conversion makes of the whole input. */
    method Run(chunks: seq<Bytes>)
      requires Ready([]) && written == [] && !intrunc && outDbcnt == 0
      requires forall i :: 0 <= i < |chunks| ==> 0 < |chunks[i]| <= ibs
      modifies this`inDbp, this`inDbcnt, this`inDbrcnt, this`intrunc
      modifies this`written, this`outDbp, this`outDbcnt, inDb, outDb
      ensures (mode == Unblock ==> cbsz > 0) && written == Converted(Concat(chunks))
      ensures mode == Plain ==> written == Translated(Concat(chunks), ctab)
      ensures mode == Block ==> written == BlockedBy(Concat(chunks), cbsz, ctab)
      ensures mode == Unblock ==> written == Unblocked(Concat(chunks), cbsz)
    {
      ghost var total, d := Concat(chunks), [];
      StartOfFlow(total);
      var i := 0;
      assert chunks[0..] == chunks;
      while i < |chunks|
        invariant 0 <= i <= |chunks| && Ready(d) && outDbcnt <= outDb.Length && (mode == Unblock ==> cbsz > 0)
        invariant Flow(total, d, Concat(chunks[i..]))
      {
        assert chunks[i..][0] == chunks[i] && chunks[i..][1..] == chunks[i + 1..];
        d := ReadAndConvert(chunks[i], total, d, Concat(chunks[i + 1..]));
        i := i + 1;
      }
      Close(total, d);
    }

    lemma StartOfFlow(total: Bytes)
      requires Ready([]) && written == [] && !intrunc && outDbcnt == 0
      ensures outDbcnt <= outDb.Length && (mode == Unblock ==> cbsz > 0) && Flow(total, [], total)
    {
      assert [] + total == total;
      assert [] + [] + Translated(total, ctab) == Translated(total, ctab);
    }
  }

  /** The whole input that the reads bring. */
  ghost function Concat(chunks: seq<Bytes>): Bytes {
    if chunks == [] then [] else chunks[0] + Concat(chunks[1..])
  }

  /** The reads are put together in their order. */
  lemma {:induction false} ConcatParts(a: seq<Bytes>, b: seq<Bytes>, chunk: Bytes)
    ensures Concat([]) == [] && Concat([chunk]) == chunk && Concat(a + b) == Concat(a) + Concat(b)
  {
    assert [chunk][1..] == [] && chunk + [] == chunk;
    if a == [] {
      assert a + b == b && [] + Concat(b) == Concat(b);
    } else {
      assert (a + b)[1..] == a[1..] + b;
      ConcatParts(a[1..], b, chunk);
      Associate(a[0], Concat(a[1..]), Concat(b));
    }
  }

  lemma {:induction false} ConcatOneMore(chunks: seq<Bytes>, chunk: Bytes)
    ensures Concat(chunks + [chunk]) == Concat(chunks) + chunk
  {
    ConcatParts(chunks, [chunk], chunk);
  }

  /** Some way of reading s in reads of at most n bytes. */
  method Cut(s: Bytes, n: nat) returns (chunks: seq<Bytes>)
    requires n > 0
    ensures Concat(chunks) == s && forall i :: 0 <= i < |chunks| ==> 0 < |chunks[i]| <= n
  {
    var p := 0;
    chunks := [];
    while p < |s|
      invariant p <= |s| && Concat(chunks) == s[..p]
      invariant forall i :: 0 <= i < |chunks| ==> 0 < |chunks[i]| <= n
    {
      var k: nat :| 1 <= k <= n && k <= |s| - p;        // what read returns
      ConcatOneMore(chunks, s[p..p + k]);
      assert s[..p + k] == s[..p] + s[p..p + k];
      chunks, p := chunks + [s[p..p + k]], p + k;
    }
    assert s[..p] == s;
  }

  /** dd with a conversion and no table, whatever the sizes of its buffers, reads and writes. */
  method Convert(mode: Mode, chunks: seq<Bytes>, cbsz: nat, ibs: nat, obs: nat) returns (out: Bytes)
    requires mode != Plain && cbsz > 0 && ibs > 0 && obs > 0
    requires forall i :: 0 <= i < |chunks| ==> 0 < |chunks[i]| <= ibs
    ensures out == if mode == Block then Blocked(Concat(chunks), cbsz) else Unblocked(Concat(chunks), cbsz)
  {
    hide Blocked, BlockedBy, Unblocked;
    var dd := new Dd(mode, ibs, obs, cbsz, b => b);
    dd.Run(chunks);
    WithoutTable(Concat(chunks), cbsz, dd.ctab);
    out := dd.written;
  }

  /** A text through dd conv=block and then dd conv=unblock: it comes back just when all its lines fit a
      record. */
  method BlockThenUnblock(lines: seq<Bytes>, chunks: seq<Bytes>, cbsz: nat, ibs: nat, obs: nat, ibs': nat, obs': nat)
    returns (out: Bytes)
    requires cbsz > 0 && ibs > 0 && obs > 0 && ibs' > 0 && obs' > 0
    requires Concat(chunks) == Text(lines) && AllNewlineless(lines)
    requires forall i :: 0 <= i < |chunks| ==> 0 < |chunks[i]| <= ibs
    ensures out == Text(lines) <==> forall i :: 0 <= i < |lines| ==> Fits(lines[i], cbsz)
  {
    hide Text, Fits, Blocked, Unblocked;
    var records := Convert(Block, chunks, cbsz, ibs, obs);
    var chunks' := Cut(records, ibs');
    out := Convert(Unblock, chunks', cbsz, ibs', obs');
    DdRecords.BlockThenUnblock(lines, cbsz);
  }

  /** The other way round: data come back with spaces to fill the last record just when there is no newline
      in them, and as they were just when they are whole records besides. */
  method UnblockThenBlock(s: Bytes, chunks: seq<Bytes>, cbsz: nat, ibs: nat, obs: nat, ibs': nat, obs': nat)
    returns (out: Bytes)
    requires cbsz > 0 && ibs > 0 && obs > 0 && ibs' > 0 && obs' > 0
    requires Concat(chunks) == s && forall i :: 0 <= i < |chunks| ==> 0 < |chunks[i]| <= ibs
    ensures out == Padded(s, cbsz) <==> Newlineless(s)
    ensures out == s <==> Even(s, cbsz) && Newlineless(s)
  {
    hide Even, Newlineless, Blocked, Unblocked, Padded;
    var lines := Convert(Unblock, chunks, cbsz, ibs, obs);
    var chunks' := Cut(lines, ibs');
    out := Convert(Block, chunks', cbsz, ibs', obs');
    DdRecords.UnblockThenBlock(s, cbsz);
    UnblockThenBlockPads(s, cbsz);
  }

  lemma TrimmedSlice(b: Bytes, i: nat, j: nat, k: nat)
    requires i <= k <= j <= |b| && (k > i ==> b[k - 1] != SPACE) && forall m :: k <= m < j ==> b[m] == SPACE
    ensures b[i..k] == Trimmed(b[i..j])
  {
    assert forall m :: k - i <= m < j - i ==> b[i..j][m] == b[i + m];
    TrimmedIs(b[i..j], b[i..k]);
  }

  lemma {:induction false} FirstRecordOut(d: Bytes, rest: Bytes, cbsz: nat)
    requires 0 < cbsz <= |d|
    ensures Unblocked(d + rest, cbsz) == (Trimmed(d[..cbsz]) + [NEWLINE]) + Unblocked(d[cbsz..] + rest, cbsz)
  {
    Prefix(d, rest, cbsz);
    assert (d + rest)[cbsz..] == d[cbsz..] + rest;
  }

  lemma {:induction false} LastLine(d: Bytes, cbsz: nat, table: Byte -> Byte)
    requires Newlineless(d) && |d| < cbsz
    ensures d != [] ==> BlockedBy(d, cbsz, table) == d + Fill(cbsz - |d|, table(SPACE))
    ensures AfterLine([]) == [] && BlockedBy([], cbsz, table) == []
  {
    LineLengthIs(d, |d|);
  }

  lemma {:induction false} TranslatedRecord(line: Bytes, cnt: nat, cbsz: nat, table: Byte -> Byte)
    requires cnt <= cbsz && |line| >= cnt && (|line| > cnt ==> cnt == cbsz)
    ensures Translated(Record(line, cbsz), table) == Translated(line[..cnt], table) + Fill(cbsz - cnt, table(SPACE))
  {
    assert Record(line, cbsz) == line[..cnt] + Fill(cbsz - cnt, SPACE);
    TranslatedParts(line[..cnt], Fill(cbsz - cnt, SPACE), table);
  }

  lemma SliceTranslated(b: Bytes, before: Bytes, i: nat, d: Bytes, cnt: nat, table: Byte -> Byte)
    requires cnt <= |d| && i + cnt <= |b| == |before|
    requires forall k :: 0 <= k < i ==> b[k] == before[k]
    requires forall k :: 0 <= k < cnt ==> b[i + k] == table(d[k])
    ensures b[..i] == before[..i] && b[i..i + cnt] == Translated(d[..cnt], table)
  {
  }

  lemma Tail(s: Bytes, i: nat, j: nat, k: nat, l: nat)
    requires i <= l <= j <= |s| && l == i + k
    ensures s[i..j][k..] == s[l..j]
  {
  }

  /** The line of a full record, of which all that is at hand has been tossed. */
  lemma {:induction false} TossedAll(d: Bytes, rest: Bytes, cbsz: nat, table: Byte -> Byte)
    requires 0 < cbsz <= |d| && NoNewline(d, 0, cbsz) && NoNewline(d[cbsz..], 0, |d| - cbsz)
    ensures BlockedBy(d + rest, cbsz, table)
            == Translated(Record(d, cbsz), table) + BlockedBy(AfterLine(rest), cbsz, table)
  {
    NoNewlineTail(d, cbsz, |d| - cbsz, |d|);
    NoNewlineJoin(d, cbsz, |d|);
    hide NoNewline, BlockedBy, LineLength, AfterLine;
    FullLine(d, rest, cbsz, table);
  }

  /** The line of a full record, of which n bytes more have been tossed. */
  lemma {:induction false} TossedPart(d: Bytes, rest: Bytes, cbsz: nat, n: nat, table: Byte -> Byte)
    requires 0 < cbsz <= |d| && n < |d| - cbsz && NoNewline(d, 0, cbsz)
    requires NoNewline(d[cbsz..], 0, n) && d[cbsz..][n] == NEWLINE
    ensures BlockedBy(d + rest, cbsz, table)
            == Translated(Record(d[..cbsz + n], cbsz), table) + BlockedBy(d[cbsz..][n + 1..] + rest, cbsz, table)
  {
    NoNewlineTail(d, cbsz, n, cbsz + n);
    NoNewlineJoin(d, cbsz, cbsz + n);
    hide NoNewline, BlockedBy, LineLength, AfterLine, Record, Translated;
    assert d[cbsz..][n + 1..] == d[cbsz + n + 1..];
    WholeLineBy(d, cbsz + n, rest, cbsz, table);
  }

  /** The line of a full record, of which n bytes more have been tossed, or all. */
  lemma {:induction false} Tossed(d: Bytes, rest: Bytes, cbsz: nat, n: nat, all: bool, table: Byte -> Byte)
    returns (line: Bytes, d': Bytes)
    requires 0 < cbsz <= |d| && NoNewline(d, 0, cbsz) && n <= |d| - cbsz && NoNewline(d[cbsz..], 0, n)
    requires if all then n == |d| - cbsz else n < |d| - cbsz && d[cbsz..][n] == NEWLINE
    ensures |line| >= cbsz && line[..cbsz] == d[..cbsz]
    ensures if all then d' == [] else d' == d[cbsz..][n + 1..]
    ensures BlockedBy(d + rest, cbsz, table)
            == Translated(Record(line, cbsz), table)
               + BlockedBy(if all then AfterLine(rest) else d' + rest, cbsz, table)
  {
    hide NoNewline, BlockedBy, LineLength, AfterLine, Record, Translated;
    if all {
      line, d' := d, [];
      TossedAll(d, rest, cbsz, table);
    } else {
      line, d' := d[..cbsz + n], d[cbsz..][n + 1..];
      TossedPart(d, rest, cbsz, n, table);
    }
  }

  lemma NoNewlineTail(d: Bytes, i: nat, n: nat, m: nat)
    requires i <= m <= |d| && m == i + n && NoNewline(d[i..], 0, n)
    ensures NoNewline(d, i, m)
  {
    assert forall k :: i <= k < m ==> d[k] == d[i..][k - i];
  }

  lemma SliceNoNewline(b: Bytes, lo: nat, hi: nat, k: nat, n: nat)
    requires lo <= k <= hi <= |b| && k == lo + n && NoNewline(b, lo, k)
    ensures NoNewline(b[lo..hi], 0, n) && (k < hi ==> b[lo..hi][n] == b[k])
  {
  }

  lemma NoNewlineJoin(d: Bytes, j: nat, k: nat)
    requires j <= k <= |d| && NoNewline(d, 0, j) && NoNewline(d, j, k)
    ensures NoNewline(d, 0, k)
  {
  }

  lemma PieceTogether(a: Bytes, b: Bytes, k: nat, cnt: nat, n: nat)
    requires cnt <= n && k + n <= |a| == |b| && b[..k + cnt] == a[..k + cnt]
    ensures b[..k + n] == a[..k] + (a[k..k + cnt] + b[k + cnt..k + n])
  {
    assert forall i :: 0 <= i < k + cnt ==> a[i] == a[..k + cnt][i] && b[i] == b[..k + cnt][i];
  }

  lemma JoinSlices(s: Bytes, i: nat, j: nat, k: nat)
    requires i <= j <= k <= |s|
    ensures s[i..j] + s[j..k] == s[i..k]
    ensures i == j ==> s[i..j] == []
  {
  }
}
