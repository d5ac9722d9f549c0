/** Appending two boot scripts to the stream that init reads from init.rc. */
module RcSplice {
  import opened Basics

  type Bytes = seq<Byte>

  function Min(a: nat, b: nat): (m: nat)
    ensures m <= a && m <= b && (m == a || m == b)
  {
    if a < b then a else b
  }

  /** The stream init should see: the file, the built-in script, the module script. */
  datatype Script = Script(orig: Bytes, rc: Bytes, mod: Bytes)
  {
    function All(): Bytes { orig + rc + mod }
  }

  /** The reference reader: from position p, a read of count bytes gives what the file's own read gives
    * (n bytes, or an error) while the file lasts, and after that as much of the rest as fits. */
  function NextPos(s: Script, p: nat, count: nat, n: int): nat
    requires p <= |s.All()| && OrigMay(s, p, count, n)
  {
    if p < |s.orig| then (if n < 0 then p else p + n)
    else if p == |s.orig| && n < 0 then p
    else p + Min(count, |s.All()| - p)
  }

  /** What the file's own read may return at position p: an error, or any nonempty part of what is left
    * and fits; 0 only for a zero-size read or at the end of the file. */
  predicate OrigMay(s: Script, p: nat, count: nat, n: int) {
    n < 0 ||
    (n <= count && (if p < |s.orig| then n <= |s.orig| - p && (n == 0 <==> count == 0) else n == 0))
  }

  /** What one read hands over: exactly the stream's bytes from p to q, as many as it says, or the file's own
    * error; a nonzero-size read says 0 only at the very end. */
  ghost predicate Delivered(s: Script, p: nat, q: nat, count: nat, n: int, ret: int, data: Bytes) {
    && p <= q <= |s.All()| && data == s.All()[p..q] && |data| <= count
    && (if ret < 0 then ret == n && data == [] else ret == |data|)
    && (count > 0 && ret == 0 ==> p == |s.All()|)
  }

  /** A request to one of the two proxies; n is what the file's own read returns if it is asked. */
  datatype Request = Request(iter: bool, count: nat, n: int)

  datatype Stage = Original | FromStatic | FromModule

  /** The proxies' static state, with the file position of the stream being read. */
  class RcStream {
    ghost const script: Script
    const rc: Bytes            // TAMISU_RC
    var rcPos: nat             // tamisu_rc_pos
    var moduleBuf: Bytes       // module_rc_buf
    var moduleLen: nat         // module_rc_len
    var modulePos: nat         // module_rc_pos
    const orig: Bytes          // the file
    var origPos: nat

    constructor (orig: Bytes, rc: Bytes, mod: Bytes)
      requires |rc| > 0
      ensures Valid() && script == Script(orig, rc, mod) && Pos() == 0 && Held()
    {
      script := Script(orig, rc, mod);
      this.orig, this.rc := orig, rc;
      rcPos, modulePos, origPos := 0, 0, 0;
      moduleBuf, moduleLen := mod, |mod|;
    }

    ghost predicate Valid()
      reads this
    {
      && script.orig == orig && script.rc == rc && |rc| > 0
      && origPos <= |orig| && rcPos <= |rc| && modulePos <= |script.mod|
      && (rcPos > 0 ==> origPos == |orig|)
      && (modulePos > 0 ==> rcPos == |rc|)
      && moduleBuf == (if Held() then script.mod else [])
      && moduleLen == |moduleBuf|
    }

    /** The module buffer is freed exactly when its last byte has been delivered. */
    ghost predicate Held()
      reads this
    {
      modulePos < |script.mod| || script.mod == []
    }

    /** How much of the whole stream has been delivered. */
    ghost function Pos(): nat
      reads this
    {
      origPos + rcPos + modulePos
    }

    /** The file's own read. */
    method OrigRead(count: nat, n: int) returns (ret: int, data: Bytes)
      requires Valid() && OrigMay(script, Pos(), count, n)
      modifies `origPos
      ensures ret == n && origPos == if n > 0 then old(origPos) + n else old(origPos)
      ensures Valid() && old(Pos()) <= Pos() <= |script.All()|
      ensures data == script.All()[old(Pos())..Pos()] && (n >= 0 ==> |data| == n)
    {
      ret := n;
      data := [];
      if n > 0 {
        Piece(script, Pos(), 0, Pos() + n);
        data := orig[origPos..origPos + n];
        origPos := origPos + n;
      }
    }

    /** free_module_rc */
    method FreeModuleRc()
      modifies `moduleBuf, `moduleLen
      ensures moduleBuf == [] && moduleLen == 0
    {
      moduleBuf := [];
      moduleLen := 0;
    }

    /** Where a call starts: in the middle of an appendix, or at the file itself. */
    function FirstStage(): Stage
      reads this
    {
      if rcPos > 0 && rcPos < |rc| then FromStatic
      else if rcPos >= |rc| && modulePos < moduleLen then FromModule
      else Original
    }

    /** Copying the next bytes of the built-in script into a buffer with some room left. */
    method AppendStatic(room: nat) returns (piece: Bytes)
      requires Valid() && modulePos == 0 && (origPos == |orig| || room == 0)
      modifies `rcPos
      ensures Valid() && rcPos == old(rcPos) + Min(|rc| - old(rcPos), room)
      ensures old(Pos()) <= Pos() <= |script.All()| && |piece| == Pos() - old(Pos())
      ensures piece == script.All()[old(Pos())..Pos()]
    {
      var appendCount := Min(|rc| - rcPos, room);
      piece := rc[rcPos..rcPos + appendCount];
      if appendCount > 0 {
        Piece(script, Pos(), 1, Pos() + appendCount);
      } else {
        AllLength(script);
      }
      rcPos := rcPos + appendCount;
    }

    /** The same for the module script; its buffer is freed after the last byte. */
    method AppendModule(room: nat) returns (piece: Bytes)
      requires Valid() && modulePos < moduleLen && (rcPos == |rc| || room == 0)
      modifies `moduleBuf, `moduleLen, `modulePos
      ensures Valid() && modulePos == old(modulePos) + Min(|script.mod| - old(modulePos), room)
      ensures old(Pos()) <= Pos() <= |script.All()| && |piece| == Pos() - old(Pos())
      ensures piece == script.All()[old(Pos())..Pos()]
    {
      var appendCount := Min(moduleLen - modulePos, room);
      piece := moduleBuf[modulePos..modulePos + appendCount];
      if appendCount > 0 {
        Piece(script, Pos(), 2, Pos() + appendCount);
      } else {
        AllLength(script);
      }
      modulePos := modulePos + appendCount;
      if modulePos == moduleLen {
        FreeModuleRc();
      }
    }

    /** read_proxy: data is what ends up in the caller's buffer. */
    method ReadProxy(count: nat, n: int) returns (ret: int, data: Bytes)
      requires Valid() && OrigMay(script, Pos(), count, n)
      modifies `origPos, `rcPos, `moduleBuf, `moduleLen, `modulePos
      ensures Valid() && old(Pos()) <= |script.All()| && Pos() == NextPos(script, old(Pos()), count, n)
      ensures Delivered(script, old(Pos()), Pos(), count, n, ret, data)
    {
      hide Script.All, Min, NextPos, Delivered;
      AllLength(script);
      ret, data := 0, [];
      var stage := FirstStage();
      if stage == Original {
        ret, data := OrigRead(count, n);
        if ret != 0 {
          ReadOriginal(script, old(Pos()), Pos(), count, n, data);
          return;
        }
        if rcPos >= |rc| && modulePos >= moduleLen {
          ReadAppended(script, old(Pos()), Pos(), count, n, data);
          return;
        }
      }
      data := AppendProxy(stage, count);
      ret := |data|;
      ReadAppended(script, old(Pos()), Pos(), count, n, data);
    }

    /** Its part from append_tamisu_rc on. */
    method AppendProxy(stage: Stage, count: nat) returns (data: Bytes)
      requires Valid() && (origPos == |orig| || (count == 0 && stage == Original))
      requires stage == FromStatic ==> 0 < rcPos < |rc|
      requires stage == FromModule ==> rcPos == |rc|
      modifies `rcPos, `moduleBuf, `moduleLen, `modulePos
      ensures Valid() && old(Pos()) <= Pos() <= |script.All()|
      ensures Pos() == old(Pos()) + Min(count, |script.All()| - old(Pos())) && data == script.All()[old(Pos())..Pos()]
      ensures |data| == Pos() - old(Pos())
    {
      hide Script.All;
      AllLength(script);
      data := [];
      if stage != FromModule && rcPos < |rc| {
        data := AppendStatic(count);
      }
      if modulePos < moduleLen && |data| < count {
        ghost var q := Pos();
        var piece := AppendModule(count - |data|);
        Join(script, old(Pos()), q, Pos());
        data := data + piece;
      }
    }

    /** read_iter_proxy: the same for an iov_iter with room for count bytes, but a copy that moves nothing
      * ends the call; copy_to_iter moves as much as fits. */
    method ReadIterProxy(count: nat, n: int) returns (ret: int, data: Bytes)
      requires Valid() && OrigMay(script, Pos(), count, n)
      modifies `origPos, `rcPos, `moduleBuf, `moduleLen, `modulePos
      ensures Valid() && old(Pos()) <= |script.All()| && Pos() == NextPos(script, old(Pos()), count, n)
      ensures Delivered(script, old(Pos()), Pos(), count, n, ret, data)
    {
      hide Script.All, Min, NextPos, Delivered;
      AllLength(script);
      ret, data := 0, [];
      var stage := FirstStage();
      if stage == Original {
        ret, data := OrigRead(count, n);
        if ret != 0 {
          ReadOriginal(script, old(Pos()), Pos(), count, n, data);
          return;
        }
        if rcPos >= |rc| && modulePos >= moduleLen {
          ReadAppended(script, old(Pos()), Pos(), count, n, data);
          return;
        }
      }
      data := AppendIterProxy(stage, count);
      ret := |data|;
      ReadAppended(script, old(Pos()), Pos(), count, n, data);
    }

    /** Its part from append_tamisu_rc on. */
    method AppendIterProxy(stage: Stage, count: nat) returns (data: Bytes)
      requires Valid() && (origPos == |orig| || (count == 0 && stage == Original))
      requires stage == FromStatic ==> 0 < rcPos < |rc|
      requires stage == FromModule ==> rcPos == |rc|
      modifies `rcPos, `moduleBuf, `moduleLen, `modulePos
      ensures Valid() && old(Pos()) <= Pos() <= |script.All()|
      ensures Pos() == old(Pos()) + Min(count, |script.All()| - old(Pos())) && data == script.All()[old(Pos())..Pos()]
      ensures |data| == Pos() - old(Pos())
    {
      hide Script.All;
      AllLength(script);
      data := [];
      if stage != FromModule && rcPos < |rc| {
        data := AppendStatic(count);
        if data == [] {
          return;
        }
      }
      if modulePos < moduleLen {
        ghost var q := Pos();
        var piece := AppendModule(count - |data|);
        if piece == [] {
          return;
        }
        Join(script, old(Pos()), q, Pos());
        data := data + piece;
      }
    }

    /** The size adjustment of the fstat hook. */
    function FstatSize(size: nat): nat
      reads this
    {
      size + |rc| + moduleLen
    }

    /** fstat reports the length of the whole stream exactly until the module buffer is freed. */
    lemma FstatAgrees()
      requires Valid()
      ensures FstatSize(|orig|) == |script.All()| <==> Held()
      ensures Pos() < |script.All()| ==> Held()
    {
    }

    /** Any sequence of reads through either proxy: what was delivered, put together, is the next piece of
      * the whole stream. */
    method ReadMany(reqs: seq<Request>) returns (data: Bytes, rets: seq<int>)
      requires Valid() && MayAll(script, Pos(), reqs)
      modifies `origPos, `rcPos, `moduleBuf, `moduleLen, `modulePos
      ensures Valid() && Pos() == PosAfter(script, old(Pos()), reqs)
      ensures old(Pos()) <= Pos() <= |script.All()|
      ensures data == script.All()[old(Pos())..Pos()]
      ensures |rets| == |reqs|
      ensures forall i :: 0 <= i < |reqs| && reqs[i].count > 0 && rets[i] == 0 ==> Pos() == |script.All()|
    {
      data, rets := [], [];
      for i := 0 to |reqs|
        invariant Valid() && MayAll(script, Pos(), reqs[i..])
        invariant PosAfter(script, old(Pos()), reqs) == PosAfter(script, Pos(), reqs[i..])
        invariant old(Pos()) <= Pos() <= |script.All()|
        invariant data == script.All()[old(Pos())..Pos()]
        invariant |rets| == i
        invariant forall j :: 0 <= j < i && reqs[j].count > 0 && rets[j] == 0 ==> Pos() == |script.All()|
      {
        ghost var p := Pos();
        var r := reqs[i];
        assert reqs[i..][0] == r && reqs[i..][1..] == reqs[i + 1..];
        var ret, piece;
        if r.iter {
          ret, piece := ReadIterProxy(r.count, r.n);
        } else {
          ret, piece := ReadProxy(r.count, r.n);
        }
        data := data + piece;
        rets := rets + [ret];
        Join(script, old(Pos()), p, Pos());
      }
    }
  }

  /** For example, a stream of three parts of one byte each is read in their order, and once it has been read, fstat
    * reports two bytes. */
  method FstatAfterTheEnd() returns (size: nat, ghost whole: nat, first: Bytes, second: Bytes, last: Bytes)
    ensures size == 2 && whole == 3 && first == [1] && second == [2] && last == [3]
  {
    var stream := new RcStream([1], [2], [3]);
    assert stream.script.All() == [1, 2, 3];
    var ret;
    ret, first := stream.ReadProxy(1, 1);
    ret, second := stream.ReadProxy(1, 0);
    ret, last := stream.ReadProxy(1, 0);
    size := stream.FstatSize(|stream.orig|);
    whole := |stream.script.All()|;
  }

  /** Every request's n is something the file's own read may return at that point. */
  ghost predicate MayAll(s: Script, p: nat, reqs: seq<Request>)
    decreases |reqs|
  {
    p <= |s.All()| &&
    (reqs == [] ||
     (OrigMay(s, p, reqs[0].count, reqs[0].n) && MayAll(s, NextPos(s, p, reqs[0].count, reqs[0].n), reqs[1..])))
  }

  ghost function PosAfter(s: Script, p: nat, reqs: seq<Request>): nat
    requires MayAll(s, p, reqs)
    decreases |reqs|
  {
    if reqs == [] then p else PosAfter(s, NextPos(s, p, reqs[0].count, reqs[0].n), reqs[1..])
  }

  /** A piece of one of the three parts is the corresponding piece of the whole. */
  lemma Piece(s: Script, p: nat, part: int, q: nat)
    requires p <= q
    requires part == 0 ==> q <= |s.orig|
    requires part == 1 ==> |s.orig| <= p && q <= |s.orig| + |s.rc|
    requires part == 2 ==> |s.orig| + |s.rc| <= p && q <= |s.All()|
    requires 0 <= part <= 2
    ensures q <= |s.All()|
    ensures s.All()[p..q] == match part
                             case 0 => s.orig[p..q]
                             case 1 => s.rc[p - |s.orig|..q - |s.orig|]
                             case _ => s.mod[p - |s.orig| - |s.rc|..q - |s.orig| - |s.rc|]
  {
    var o, n := |s.orig|, |s.orig| + |s.rc|;
    match part
    case 0 => Middle([], s.orig, s.rc + s.mod, p, q);
    case 1 => Middle(s.orig, s.rc, s.mod, p - o, q - o);
    case _ => Middle(s.orig + s.rc, s.mod, [], p - n, q - n);
  }

  lemma Middle(a: Bytes, b: Bytes, c: Bytes, p: nat, q: nat)
    requires p <= q <= |b|
    ensures (a + b + c)[|a| + p..|a| + q] == b[p..q]
  {
  }

  lemma AllLength(s: Script)
    ensures |s.All()| == |s.orig| + |s.rc| + |s.mod|
  {
  }

  /** A read that the file itself served, or failed. */
  lemma ReadOriginal(s: Script, p: nat, q: nat, count: nat, n: int, data: Bytes)
    requires OrigMay(s, p, count, n) && n != 0 && q == (if n > 0 then p + n else p) <= |s.All()|
    requires p <= |s.orig| || p == |s.All()|
    requires data == s.All()[p..q]
    ensures NextPos(s, p, count, n) == q && Delivered(s, p, q, count, n, n, data)
  {
  }

  /** A read served from the appendices. */
  lemma ReadAppended(s: Script, p: nat, q: nat, count: nat, n: int, data: Bytes)
    requires p <= q <= |s.All()| && OrigMay(s, p, count, n) && (p == |s.orig| ==> n == 0)
    requires data == s.All()[p..q] && q == p + Min(count, |s.All()| - p)
    requires p < |s.orig| ==> count == 0 && n == 0
    ensures NextPos(s, p, count, n) == q && Delivered(s, p, q, count, n, |data|, data)
  {
  }

  /** Consecutive pieces join. */
  lemma Join(s: Script, p: nat, q: nat, r: nat)
    requires p <= q <= r <= |s.All()|
    ensures s.All()[p..q] + s.All()[q..r] == s.All()[p..r]
  {
  }

  /** Reading to the end terminates: that many nonzero reads without errors deliver the whole stream. */
  lemma {:induction false} EnoughReadsFinish(s: Script, p: nat, reqs: seq<Request>)
    requires MayAll(s, p, reqs)
    requires forall i :: 0 <= i < |reqs| ==> reqs[i].count > 0 && reqs[i].n >= 0
    ensures PosAfter(s, p, reqs) >= Min(p + |reqs|, |s.All()|)
    decreases |reqs|
  {
    if reqs != [] {
      var p' := NextPos(s, p, reqs[0].count, reqs[0].n);
      assert p' >= Min(p + 1, |s.All()|);
      EnoughReadsFinish(s, p', reqs[1..]);
    }
  }
}
