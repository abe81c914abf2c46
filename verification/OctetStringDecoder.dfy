/**
  OCTET_STRING_decode_ber as it is written: an object whose fields survive between calls,
  a stack of expectations whose elements are reused, and a buffer that grows by doubling.
  Every call is proved to do what the machine of module OctetString does.
 */
module OctetStringDecoder {
  import opened Bits
  import opened BerTag
  import opened BerLength
  import opened BerCheckTags
  import opened OctetString
  import opened OctetStringResume

  /** struct _stack_el */
  datatype Element = Element(left: int, got: nat, level: nat, wantNulls: bool, chopped: bool) {
    function AsFrame(): Frame {
      Frame(left, got, wantNulls, chopped)
    }
  }

  /** The elements in use, as the machine sees them. */
  ghost function Live(stack: seq<Element>, cur: int): (f: seq<Frame>)
    requires -1 <= cur < |stack|
    ensures |f| == cur + 1
  {
    seq(cur + 1, i requires 0 <= i < cur + 1 => stack[i].AsFrame())
  }

  class Decoder {
    // asn_struct_ctx_t
    var phase: nat
    var step: nat
    var left: int
    var context: nat
    // struct _stack: all elements ever allocated, and the current one (-1 for NULL)
    var stack: seq<Element>
    var cur: int
    // BIT_STRING_t
    var buf: seq<byte>
    var unused: nat

    ghost predicate Valid()
      reads this
    {
      && -1 <= cur < |stack|
      && (forall i :: 0 <= i < |stack| ==> stack[i].level == i)
      && (phase <= 1 && cur == -1 ==> stack == [])
      && (context > 0 ==> context == Allocation(|buf|, 16) && ToInt(context) >= 0)
    }

    ghost function View(): State
      requires Valid()
      reads this
    {
      State(phase, step, left, Live(stack, cur), buf, context > 0, unused)
    }

    constructor ()
      ensures Valid() && View() == FRESH
    {
      phase, step, left, context := 0, 0, 0, 0;
      stack, cur, buf, unused := [], -1, [], 0;
    }

    /** APPEND: grow the allocation by doubling, and copy; refuse sizes that are negative as an int. */
    method Append(data: seq<byte>) returns (ok: bool)
      requires Valid()
      modifies this`context, this`buf
      ensures Valid() && ok == CanHold(|old(buf)| + |data|)
      ensures ok ==> buf == old(buf) + data && context > 0
      ensures !ok ==> buf == old(buf)
    {
      var ns, es := context, |buf| + |data|;
      if ToInt(es) < 0 {
        return false;
      }
      AllocationSteps(|buf|, es);
      if ns <= es {
        ns := if ns > 0 then 2 * ns else 16;
        while ns <= es
          invariant ns > 0 && Allocation(es, ns) == Allocation(es, 16)
          decreases es - ns
        {
          ns := 2 * ns;
        }
        if ToInt(ns) < 0 {
          return false;
        }
        context := ns;
      }
      buf := buf + data;
      ok := true;
    }

    /** OS__add_stack_el: reuse the element after the current one, or allocate one. */
    method AddStackEl()
      requires Valid() && phase == 1
      modifies this`stack, this`cur
      ensures Valid() && cur == old(cur) + 1
      ensures stack[cur].got == 0 && !stack[cur].chopped
      ensures View() == old(View()).(frames := old(View()).frames + [stack[cur].AsFrame()])
    {
      hide Allocation, ToInt;
      if cur >= 0 && cur + 1 < |stack| {
        var nel := stack[cur + 1];
        stack := stack[cur + 1 := nel.(chopped := false, got := 0)];
      } else {
        var level := if stack == [] then 0 else stack[|stack| - 1].level + 1;
        stack := stack + [Element(0, 0, level, false, false)];
      }
      cur := cur + 1;
      assert Live(stack, cur) == old(Live(stack, cur)) + [stack[cur].AsFrame()];
    }

    /** Update the current element. */
    method SetCurrent(left: int, got: nat, wantNulls: bool, chopped: bool)
      requires Valid() && cur >= 0
      modifies this`stack
      ensures Valid()
      ensures View() == old(View()).SetTop(Frame(left, got, wantNulls, chopped))
    {
      stack := stack[cur := stack[cur].(left := left, got := got, wantNulls := wantNulls, chopped := chopped)];
      assert Live(stack, cur) == old(Live(stack, cur))[..cur] + [Frame(left, got, wantNulls, chopped)];
    }

    /** What a phase did, compared with the machine's turn on the same state and input. */
    twostate predicate Did(td: TypeDesc, mode: int, b: seq<byte>, go: bool, code: Verdict, n: nat)
      requires td.Valid() && old(Valid()) && Sound(td, mode, old(View())) && Valid()
      reads this
    {
      var m := Step(td, mode, old(View()), b);
      && go == m.Continue? && n == m.size
      && (!go ==> code == m.code)
      && (go || code != Fail ==> View() == m.state)
    }

    method CheckTagsPhase(td: TypeDesc, mode: int, b: seq<byte>) returns (go: bool, code: Verdict, n: nat)
      requires Valid() && td.Valid() && phase == 0 && Sound(td, mode, View()) && -1 <= mode <= 1
      modifies this
      ensures Valid() && Did(td, mode, b, go, code, n)
    {
      hide CheckFrom;
      var r := BerCheckTags.BerCheckTags(Demand(td.tags, mode, -1), b, step);
      step := r.step;
      if r.code != Ok {
        return false, r.code, r.consumed;
      }
      left, context := r.length, 0;
      if r.form == 1 {
        stack, cur, phase := [], -1, 1;
        return true, Ok, 0;
      }
      phase := 3;
      return true, Ok, r.consumed;
    }

    /** The head of the loop of phase 1: leave complete frames. */
    method PopPhase(td: TypeDesc, mode: int, ghost b: seq<byte>) returns (go: bool, code: Verdict, n: nat)
      requires Valid() && td.Valid() && phase == 1 && cur >= 0 && Complete(stack[cur].AsFrame())
      modifies this
      ensures Valid() && Did(td, mode, b, go, code, n)
    {
      hide Allocation, ToInt;
      var sel := stack[cur];
      if cur == 0 {
        cur, phase := -1, 4;
        return true, Ok, 0;
      }
      var prev := stack[cur - 1];
      var prevLeft := prev.left;
      if prevLeft != -1 {
        if prevLeft < sel.got {
          return false, Fail, 0;
        }
        prevLeft := prevLeft - sel.got;
      }
      cur := cur - 1;
      SetCurrent(prevLeft, prev.got + sel.got, prev.wantNulls, prev.chopped);
      return true, Ok, 0;
    }

    /** Append a new expectation for a header of `tlvl` octets. */
    method PushPhase(td: TypeDesc, constructed: bool, tlvl: nat, length: int) returns (go: bool, code: Verdict)
      requires Valid() && phase == 1
      modifies this
      ensures Valid()
      ensures var m := Push(old(View()), constructed, tlvl, length);
              && go == m.Continue? && (!go ==> code == m.code) && (go ==> View() == m.state)
    {
      hide Allocation, ToInt, Live;
      ghost var s := View();
      AddStackEl();
      code := Ok;
      var wantNulls := length == -1;
      var newLeft := length;
      assert cur > 0 ==> stack[cur - 1].AsFrame() == s.Top() by { if cur > 0 { LiveAt(stack, cur, cur - 1); } }
      if cur > 0 && stack[cur - 1].left != -1 {
        if stack[cur - 1].left < tlvl + (if length == -1 then 0 else length) {
          return false, Fail;
        }
        if length == -1 {
          newLeft := stack[cur - 1].left - tlvl;
        }
      }
      SetTopOfPush(s, stack[cur].AsFrame(), Frame(newLeft, tlvl, wantNulls, false));
      SetCurrent(newLeft, stack[cur].got + tlvl, wantNulls, stack[cur].chopped);
      assert View() == s.(frames := s.frames + [Frame(newLeft, tlvl, wantNulls, false)]);
      if !constructed {
        phase := 2;
      }
      go := true;
    }

    /** The rest of the loop of phase 1: end-of-contents octets or a new expectation. */
    method FillPhase(td: TypeDesc, mode: int, b: seq<byte>) returns (go: bool, code: Verdict, n: nat)
      requires Valid() && td.Valid() && phase == 1 && (cur >= 0 ==> !Complete(stack[cur].AsFrame()))
      modifies this
      ensures Valid() && Did(td, mode, b, go, code, n)
    {
      hide FetchTag, FetchLength, Constructed, Push, Allocation, ToInt;
      var avail := if cur < 0 || stack[cur].left < 0 || stack[cur].left >= |b| then |b| else stack[cur].left;
      var w := b[..avail];
      assert w == Window(View(), b);
      var tag := BerFetchTag(w);
      if !tag.Got? {
        return false, if tag.More? then WantMore else Fail, 0;
      }
      TagPrefix(w, |w|);
      var constructed := Constructed(w[0]);
      var len := BerFetchLength(constructed, w[tag.size..]);
      if !len.Got? {
        return false, if len.More? then WantMore else Fail, 0;
      }
      LengthPrefix(constructed, w[tag.size..], |w| - tag.size);
      if cur >= 0 && stack[cur].wantNulls && b[0] == 0 && b[1] == 0 {
        SetCurrent(0, stack[cur].got + 2, false, stack[cur].chopped);
        return true, Ok, 2;
      }
      if cur >= 0 && tag.value != td.Expected(stack[cur].level) {
        return false, Fail, 0;
      }
      ghost var s := View();
      assert w[0] == b[0] && w[1] == b[1];
      assert cur >= 0 ==> s.Top() == stack[cur].AsFrame() && stack[cur].level == |s.frames| - 1;
      assert Step(td, mode, s, b) == Push(s, constructed, tag.size + len.size, len.value);
      PushSize(s, constructed, tag.size + len.size, len.value);
      go, code := PushPhase(td, constructed, tag.size + len.size, len.value);
      n := if go then tag.size + len.size else 0;
    }

    /** Phase 2: take what is there of a primitive segment. */
    method SegmentPhase(td: TypeDesc, mode: int, b: seq<byte>) returns (go: bool, code: Verdict, n: nat)
      requires Valid() && td.Valid() && phase == 2 && Sound(td, mode, View())
      modifies this
      ensures Valid() && Did(td, mode, b, go, code, n)
    {
      hide CanHold, Allocation, ToInt;
      var sel := stack[cur];
      var len := if |b| < sel.left then |b| else sel.left;
      var chopped := sel.chopped;
      if len > 0 {
        var ok;
        if td.variant == Bit && !sel.chopped {
          ok := Append(b[1..len]);
          chopped := true;
        } else {
          ok := Append(b[..len]);
        }
        if !ok {
          return false, Fail, 0;
        }
        if chopped && !sel.chopped {
          unused := b[0];
        }
      }
      SetCurrent(sel.left - len, sel.got + len, sel.wantNulls, chopped);
      if sel.left > len {
        return false, WantMore, len;
      }
      phase := 1;
      return true, Ok, len;
    }

    /** Phase 3: the contents of a primitive encoding. */
    method StringPhase(td: TypeDesc, mode: int, b: seq<byte>) returns (go: bool, code: Verdict, n: nat)
      requires Valid() && td.Valid() && phase == 3 && Sound(td, mode, View())
      modifies this
      ensures Valid() && Did(td, mode, b, go, code, n)
    {
      hide CanHold, Allocation, ToInt;
      var short := |b| < left;
      if short && |b| == 0 {
        return false, WantMore, 0;
      }
      n := 0;
      if td.variant == Bit && context == 0 && left > 0 {
        unused := b[0];
        left := left - 1;
        n := 1;
      }
      var end := if short then |b| else n + left;
      var ok := Append(b[n..end]);
      if !ok {
        return false, Fail, n;
      }
      left := left - (end - n);
      n := end;
      if short {
        return false, WantMore, n;
      }
      phase := 4;
      return true, Ok, n;
    }

    /** Completion; a BIT STRING has its unused bits zeroed out. */
    method FinalPhase(td: TypeDesc, mode: int, ghost b: seq<byte>) returns (code: Verdict)
      requires Valid() && td.Valid() && phase >= 4
      modifies this`buf
      ensures Valid() && Did(td, mode, b, false, code, 0)
    {
      hide Allocation, ClearLow;
      if td.variant == Bit {
        if |buf| > 0 {
          if unused > 7 {
            return Fail;
          }
          buf := buf[|buf| - 1 := ClearLow(buf[|buf| - 1], unused)];
        } else if unused != 0 {
          return Fail;
        }
      }
      code := Ok;
    }

    /** One turn, whatever the phase. */
    method Turn(td: TypeDesc, mode: int, b: seq<byte>) returns (go: bool, code: Verdict, n: nat)
      requires Valid() && td.Valid() && Sound(td, mode, View()) && -1 <= mode <= 1
      modifies this
      ensures Valid() && Did(td, mode, b, go, code, n)
    {
      hide Step;
      if phase == 0 {
        go, code, n := CheckTagsPhase(td, mode, b);
      } else if phase == 1 {
        if cur >= 0 && stack[cur].left <= 0 && !stack[cur].wantNulls {
          go, code, n := PopPhase(td, mode, b);
        } else {
          go, code, n := FillPhase(td, mode, b);
        }
      } else if phase == 2 {
        go, code, n := SegmentPhase(td, mode, b);
      } else if phase == 3 {
        go, code, n := StringPhase(td, mode, b);
      } else {
        code := FinalPhase(td, mode, b);
        go, n := false, 0;
      }
    }

    /** OCTET_STRING_decode_ber: one call, fresh or resumed. */
    method DecodeBer(td: TypeDesc, mode: int, b: seq<byte>) returns (code: Verdict, consumed: nat)
      requires Valid() && td.Valid() && Sound(td, mode, View()) && -1 <= mode <= 1
      modifies this
      ensures Valid()
      ensures var r := Run(td, mode, old(View()), b);
              code == r.code && consumed == r.consumed && (code != Fail ==> View() == r.state)
    {
      hide Step;
      consumed := 0;
      while true
        invariant Valid() && Sound(td, mode, View()) && consumed <= |b|
        invariant Run(td, mode, old(View()), b) == Run(td, mode, View(), b[consumed..]).Plus(consumed)
        decreases |b| - consumed, Rank(View()), |View().frames|
      {
        ghost var s := View();
        StepAdvances(td, mode, s, b[consumed..]);
        var go, n;
        go, code, n := Turn(td, mode, b[consumed..]);
        assert b[consumed..][n..] == b[consumed + n..];
        consumed := consumed + n;
        if !go {
          return;
        }
      }
    }
  }

  /**
    A caller that receives its input in pieces and keeps what the decoder did not consume: the outcome is
    that of one call on the whole input, for every input and every way of cutting it but between two tags.
   */
  method DecodePieces(decoder: Decoder, td: TypeDesc, mode: int, pieces: seq<seq<byte>>)
    returns (code: Verdict, consumed: nat)
    requires td.Valid() && -1 <= mode <= 1 && decoder.Valid() && decoder.View() == FRESH
    requires pieces != [] && |Flatten(pieces)| < SIZE_LIMIT && NeverInChain(td, mode, FRESH, [], pieces)
    modifies decoder
    ensures decoder.Valid()
    ensures var r := Run(td, mode, FRESH, Flatten(pieces));
            code == r.code && consumed == r.consumed && (code != Fail ==> decoder.View() == r.state)
  {
    hide Run, Step, Sound, Flatten, Decoder.View, Decoder.Valid, NeverInChain;
    var tail, i := [], 0;
    assert Sound(td, mode, FRESH) by { FreshIsSound(td, mode); }
    consumed := 0;
    FeedAnySplit(td, mode, FRESH, [], pieces);
    assert [] + Flatten(pieces) == Flatten(pieces) && pieces[0..] == pieces;
    while true
      invariant 0 <= i < |pieces|
      invariant decoder.Valid() && Sound(td, mode, decoder.View())
      invariant Run(td, mode, FRESH, Flatten(pieces))
             == Feed(td, mode, decoder.View(), tail, pieces[i..]).Plus(consumed)
      decreases |pieces| - i
    {
      ghost var s := decoder.View();
      var input := tail + pieces[i];
      assert pieces[i..][0] == pieces[i] && pieces[i..][1..] == pieces[i + 1..];
      var n;
      code, n := decoder.DecodeBer(td, mode, input);
      consumed := consumed + n;
      if code != WantMore || i + 1 == |pieces| {
        return;
      }
      tail := input[n..];
      i := i + 1;
    }
  }

  lemma {:induction false} FreshIsSound(td: TypeDesc, mode: int)
    requires td.Valid() && -1 <= mode <= 1
    ensures Sound(td, mode, FRESH)
  {
  }

  lemma {:induction false} LiveAt(stack: seq<Element>, cur: int, i: nat)
    requires -1 <= cur < |stack| && i <= cur
    ensures Live(stack, cur)[i] == stack[i].AsFrame()
  {
  }

  lemma {:induction false} SetTopOfPush(s: State, f: Frame, g: Frame)
    ensures s.(frames := s.frames + [f]).SetTop(g) == s.(frames := s.frames + [g])
  {
    assert (s.frames + [f])[..|s.frames|] == s.frames;
  }

  lemma {:induction false} PushSize(s: State, constructed: bool, tlvl: nat, length: int)
    ensures var m := Push(s, constructed, tlvl, length);
            if m.Continue? then m.size == tlvl else m.size == 0 && m.code == Fail
  {
  }

  lemma {:induction false} AllocationChain(n: nat, m: nat, from: nat)
    requires n <= m && from > 0
    ensures Allocation(n, from) > 0 && Allocation(m, Allocation(n, from)) == Allocation(m, from)
    decreases n + 1 - from
  {
    if from <= n {
      AllocationChain(n, m, 2 * from);
    }
  }

  /** Doubling from an allocation already made leads to the same allocation as from 16. */
  lemma {:induction false} AllocationSteps(n: nat, es: nat)
    requires n <= es
    ensures var a := Allocation(n, 16);
            && a > 0 && Allocation(es, a) == Allocation(es, 16)
            && (a > es ==> a == Allocation(es, 16))
            && (a <= es ==> Allocation(es, 2 * a) == Allocation(es, 16))
  {
    AllocationChain(n, es, 16);
  }
}
