/** The socket command validator `a2agent::valid_command` (src/a2gspu_agent.hpp), against
    the UTF-8 encoding of section 3 of RFC 3629.
 */
module Agent {
  import opened Bytes

  const MAX_COMMAND := 2047

  /** A Unicode scalar value that a command may hold: no control below 32, no DEL. */
  predicate Allowed(cp: nat) {
    32 <= cp <= 0x10FFFF && cp != 127 && !(0xD800 <= cp <= 0xDFFF)
  }

  function Encode(cp: nat): seq<byte>
    requires Allowed(cp)
  {
    if cp < 0x80 then [cp]
    else if cp < 0x800 then [0xC0 + cp / 0x40, 0x80 + cp % 0x40]
    else if cp < 0x1_0000 then [0xE0 + cp / 0x1000, 0x80 + cp / 0x40 % 0x40, 0x80 + cp % 0x40]
    else [0xF0 + cp / 0x4_0000, 0x80 + cp / 0x1000 % 0x40, 0x80 + cp / 0x40 % 0x40, 0x80 + cp % 0x40]
  }

  function EncodeAll(cps: seq<nat>): seq<byte>
    requires forall cp <- cps :: Allowed(cp)
  {
    if cps == [] then [] else Encode(cps[0]) + EncodeAll(cps[1..])
  }

  /** The reading of a lead byte's payload and the continuation bytes after it. */
  function Fold(lead: nat, ds: seq<byte>): nat {
    if ds == [] then lead else Fold(lead, ds[..|ds| - 1]) * 64 + ds[|ds| - 1] % 64
  }

  predicate Continuation(d: byte) { 0x80 <= d < 0xC0 }

  /** What a lead byte announces: how many bytes follow, the least value that needs them,
      and the payload bits of the lead itself. */
  datatype Lead = Lead(count: nat, min: nat, bits: nat) | NoLead

  function LeadOf(c: byte): Lead {
    if 0xC2 <= c <= 0xDF then Lead(1, 0x80, c % 32)
    else if 0xE0 <= c <= 0xEF then Lead(2, 0x800, c % 16)
    else if 0xF0 <= c <= 0xF4 then Lead(3, 0x1_0000, c % 8)
    else NoLead
  }

  predicate Reads(c: byte, ds: seq<byte>, cp: nat) {
    var lead := LeadOf(c);
    && lead.Lead? && |ds| == lead.count && Fold(lead.bits, ds) == cp && cp >= lead.min
    && forall d <- ds :: Continuation(d)
  }

  /** Every multi-byte encoding is a lead byte and as many continuations as it announces, and
      reads back as the value. */
  lemma EncodingReadsBack(cp: nat)
    requires Allowed(cp) && cp >= 0x80
    ensures Reads(Encode(cp)[0], Encode(cp)[1..], cp)
  {
    var e := Encode(cp);
    if cp < 0x800 {
      ReadsBack2(cp);
      assert e[1..] == [0x80 + cp % 64];
    } else if cp < 0x1_0000 {
      ReadsBack3(cp);
      assert e[1..] == [0x80 + cp / 64 % 64, 0x80 + cp % 64];
    } else {
      ReadsBack4(cp);
      assert e[1..] == [0x80 + cp / 4096 % 64, 0x80 + cp / 64 % 64, 0x80 + cp % 64];
    }
  }

  lemma ReadsBack2(cp: nat)
    requires 0x80 <= cp < 0x800
    ensures Reads(0xC0 + cp / 64, [0x80 + cp % 64], cp)
  {
    var c, ds := 0xC0 + cp / 64, [0x80 + cp % 64];
    UnfoldFold(cp / 64, ds);
    assert LeadOf(c) == Lead(1, 0x80, cp / 64);
  }

  lemma ReadsBack3(cp: nat)
    requires 0x800 <= cp < 0x1_0000
    ensures Reads(0xE0 + cp / 4096, [0x80 + cp / 64 % 64, 0x80 + cp % 64], cp)
  {
    DigitsOf(cp);
    ReadsDigits3(cp / 4096, cp / 64 % 64, cp % 64, cp);
  }

  lemma ReadsDigits3(a: nat, b: nat, c: nat, cp: nat)
    requires a < 16 && b < 64 && c < 64 && cp == (a * 64 + b) * 64 + c && 0x800 <= cp
    ensures Reads(0xE0 + a, [0x80 + b, 0x80 + c], cp)
  {
    var ds: seq<byte> := [0x80 + b, 0x80 + c];
    UnfoldFold(a, ds);
    assert ds[0] % 64 == b && ds[1] % 64 == c;
    hide Fold;
    assert LeadOf(0xE0 + a) == Lead(2, 0x800, a);
  }

  lemma ReadsBack4(cp: nat)
    requires 0x1_0000 <= cp <= 0x10FFFF
    ensures Reads(0xF0 + cp / 0x4_0000, [0x80 + cp / 4096 % 64, 0x80 + cp / 64 % 64, 0x80 + cp % 64], cp)
  {
    DigitsOf(cp);
    ReadsDigits4(cp / 0x4_0000, cp / 4096 % 64, cp / 64 % 64, cp % 64, cp);
  }

  lemma ReadsDigits4(a: nat, b: nat, c: nat, d: nat, cp: nat)
    requires a < 5 && b < 64 && c < 64 && d < 64 && cp == ((a * 64 + b) * 64 + c) * 64 + d && 0x1_0000 <= cp <= 0x10FFFF
    ensures Reads(0xF0 + a, [0x80 + b, 0x80 + c, 0x80 + d], cp)
  {
    var ds: seq<byte> := [0x80 + b, 0x80 + c, 0x80 + d];
    UnfoldFold(a, ds);
    assert ds[0] % 64 == b && ds[1] % 64 == c && ds[2] % 64 == d;
    hide Fold;
    assert LeadOf(0xF0 + a) == Lead(3, 0x1_0000, a);
  }

  /** Base 64, in both directions. */
  lemma DigitsOf(v: nat)
    ensures v == v / 64 * 64 + v % 64
    ensures v / 64 == v / 4096 * 64 + v / 64 % 64
    ensures v / 4096 == v / 0x4_0000 * 64 + v / 4096 % 64
  {
  }

  lemma DigitsBack(hi: nat, v: nat, d: nat)
    requires v == hi * 64 + d && d < 64
    ensures v / 64 == hi && v % 64 == d && v / 4096 == hi / 64 && v / 0x4_0000 == hi / 4096
  {
  }

  lemma UnfoldFold(lead: nat, ds: seq<byte>)
    requires 1 <= |ds| <= 3
    ensures |ds| == 1 ==> Fold(lead, ds) == lead * 64 + ds[0] % 64
    ensures |ds| == 2 ==> Fold(lead, ds) == (lead * 64 + ds[0] % 64) * 64 + ds[1] % 64
    ensures |ds| == 3 ==> Fold(lead, ds) == ((lead * 64 + ds[0] % 64) * 64 + ds[1] % 64) * 64 + ds[2] % 64
  {
    var a := ds[..|ds| - 1];
    if |ds| == 2 {
      assert a[..0] == [];
    } else if |ds| == 3 {
      assert a[..1][..0] == [];
    }
  }

  /** The converse: a lead byte and its continuations, read as an allowed value that needs
      that many bytes, are that value's encoding. */
  lemma ReadingEncodes(c: byte, ds: seq<byte>, cp: nat)
    requires Reads(c, ds, cp) && Allowed(cp)
    ensures Encode(cp) == [c] + ds
  {
    UnfoldFold(LeadOf(c).bits, ds);
    if |ds| == 1 {
      Writes2(c, ds[0], cp);
      assert ds == [ds[0]];
    } else if |ds| == 2 {
      Writes3(c, ds[0], ds[1], cp);
      assert ds == [ds[0], ds[1]];
    } else {
      Writes4(c, ds[0], ds[1], ds[2], cp);
      assert ds == [ds[0], ds[1], ds[2]];
    }
  }

  lemma Writes2(c: byte, d: byte, cp: nat)
    requires 0xC2 <= c <= 0xDF && Continuation(d) && cp == c % 32 * 64 + d % 64 && Allowed(cp)
    ensures Encode(cp) == [c, d]
  {
    DigitsBack(c % 32, cp, d % 64);
  }

  lemma Writes3(c: byte, d: byte, e: byte, cp: nat)
    requires 0xE0 <= c <= 0xEF && Continuation(d) && Continuation(e)
    requires cp == (c % 16 * 64 + d % 64) * 64 + e % 64 && Allowed(cp) && cp >= 0x800
    ensures Encode(cp) == [c, d, e]
  {
    var a := c % 16 * 64 + d % 64;
    DigitsBack(c % 16, a, d % 64);
    DigitsBack(a, cp, e % 64);
  }

  lemma Writes4(c: byte, d: byte, e: byte, f: byte, cp: nat)
    requires 0xF0 <= c <= 0xF4 && Continuation(d) && Continuation(e) && Continuation(f)
    requires cp == ((c % 8 * 64 + d % 64) * 64 + e % 64) * 64 + f % 64 && Allowed(cp) && cp >= 0x1_0000
    ensures Encode(cp) == [c, d, e, f]
  {
    hide Encode;
    assert c % 8 == c - 0xF0 && d % 64 == d - 0x80 && e % 64 == e - 0x80 && f % 64 == f - 0x80;
    EncodesDigits4(c % 8, d % 64, e % 64, f % 64, cp);
  }

  lemma EncodesDigits4(a: nat, b: nat, c: nat, d: nat, cp: nat)
    requires a < 8 && b < 64 && c < 64 && d < 64 && cp == ((a * 64 + b) * 64 + c) * 64 + d && cp >= 0x1_0000 && Allowed(cp)
    ensures a < 5 && Encode(cp) == [0xF0 + a, 0x80 + b, 0x80 + c, 0x80 + d]
  {
    DigitsBack(a, a * 64 + b, b);
    DigitsBack(a * 64 + b, (a * 64 + b) * 64 + c, c);
    DigitsBack((a * 64 + b) * 64 + c, cp, d);
  }

  lemma FoldNone(lead: nat, text: seq<byte>, from: nat)
    requires from <= |text|
    ensures Fold(lead, text[from..from]) == lead && text[from..from] == []
  {
  }

  lemma FoldGrows(lead: nat, text: seq<byte>, from: nat, to: nat)
    requires from <= to < |text|
    ensures Fold(lead, text[from..to + 1]) == Fold(lead, text[from..to]) * 64 + text[to] % 64
    ensures text[from..to + 1] == text[from..to] + [text[to]]
  {
    assert text[from..to + 1][..to - from] == text[from..to];
  }

  lemma IsRead(c: byte, ds: seq<byte>, point: nat)
    requires var lead := LeadOf(c); lead.Lead? && |ds| == lead.count && Fold(lead.bits, ds) == point && point >= lead.min
    requires forall d <- ds :: Continuation(d)
    ensures Reads(c, ds, point) && point >= 0x80
  {
  }

  lemma AsciiIsItself(c: byte)
    requires c < 0x80 && Allowed(c)
    ensures Encode(c) == [c]
  {
  }

  /** Takes the character at `i`, or shows that no allowed character is encoded there. */
  method TakeScalar(text: seq<byte>, i: nat) returns (ok: bool, next: nat, ghost cp: nat)
    requires i < |text|
    ensures ok ==> i < next <= |text| && Allowed(cp) && text[i..next] == Encode(cp)
    ensures !ok ==> forall p | Allowed(p) :: !(Encode(p) <= text[i..])
  {
    hide Encode, Reads, Fold, LeadOf;
    ok, next, cp := false, i + 1, 0;
    var c := text[i];
    if c < 32 || c == 127 {
      forall p | Allowed(p) ensures !(Encode(p) <= text[i..]) { Reject(text, i, p); }
      return;
    }
    if c < 128 {
      AsciiIsItself(c);
      assert text[i..next] == [c];
      return true, next, c;
    }
    var lead := LeadOf(c);
    if lead.NoLead? || next + lead.count > |text| {
      forall p | Allowed(p) ensures !(Encode(p) <= text[i..]) { Reject(text, i, p); }
      return;
    }
    var count, point := lead.count, lead.bits;
    FoldNone(lead.bits, text, i + 1);
    while count > 0
      invariant next == i + 1 + (lead.count - count) && 0 <= count <= lead.count
      invariant point == Fold(lead.bits, text[i + 1..next])
      invariant forall d <- text[i + 1..next] :: Continuation(d)
    {
      var d := text[next];
      if !Continuation(d) {
        forall p | Allowed(p) ensures !(Encode(p) <= text[i..]) { RejectAt(text, i, p, next); }
        return;
      }
      FoldGrows(lead.bits, text, i + 1, next);
      point := point * 64 + d % 64;
      next, count := next + 1, count - 1;
    }
    if point < lead.min || point > 0x10FFFF || 0xD800 <= point <= 0xDFFF {
      forall p | Allowed(p) ensures !(Encode(p) <= text[i..]) { Reject(text, i, p); }
      return;
    }
    IsRead(c, text[i + 1..next], point);
    ReadingEncodes(c, text[i + 1..next], point);
    assert text[i..next] == [c] + text[i + 1..next];
    ok, cp := true, point;
  }

  /** An allowed value encoded at `i` fixes what the bytes there must be. */
  lemma EncodedAt(text: seq<byte>, i: nat, p: nat)
    requires i < |text| && Allowed(p) && Encode(p) <= text[i..]
    ensures p < 0x80 ==> text[i] == p
    ensures p >= 0x80 ==>
              var lead := LeadOf(text[i]);
              && lead.Lead? && i + 1 + lead.count <= |text| && Fold(lead.bits, text[i + 1..i + 1 + lead.count]) == p
              && p >= lead.min && forall d <- text[i + 1..i + 1 + lead.count] :: Continuation(d)
  {
    var e := Encode(p);
    assert text[i..][0] == text[i] == e[0];
    if p >= 0x80 {
      EncodingReadsBack(p);
      assert text[i + 1..i + |e|] == text[i..][1..|e|] == e[1..];
    }
  }

  lemma Reject(text: seq<byte>, i: nat, p: nat)
    requires i < |text| && Allowed(p)
    requires var c := text[i]; var lead := LeadOf(c);
             || c < 32 || c == 127
             || (c >= 128 && lead.NoLead?)
             || (c >= 128 && lead.Lead? && i + 1 + lead.count > |text|)
             || (c >= 128 && lead.Lead? && var v := Fold(lead.bits, text[i + 1..i + 1 + lead.count]);
                                           v < lead.min || !Allowed(v))
    ensures !(Encode(p) <= text[i..])
  {
    if Encode(p) <= text[i..] {
      EncodedAt(text, i, p);
    }
  }

  lemma RejectAt(text: seq<byte>, i: nat, p: nat, at: nat)
    requires i < at < |text| && Allowed(p) && LeadOf(text[i]).Lead?
    requires at <= i + LeadOf(text[i]).count && i + LeadOf(text[i]).count < |text| && !Continuation(text[at])
    ensures !(Encode(p) <= text[i..])
  {
    if Encode(p) <= text[i..] {
      EncodedAt(text, i, p);
    }
  }

  /** Two allowed values encoded at the same place are equal. */
  lemma EncodingIsUnique(text: seq<byte>, p: nat, q: nat)
    requires text != [] && Allowed(p) && Allowed(q) && Encode(p) <= text && Encode(q) <= text
    ensures p == q
  {
    assert text[0..] == text;
    EncodedAt(text, 0, p);
    EncodedAt(text, 0, q);
  }

  lemma {:induction false} EncodeAllAppend(a: seq<nat>, cp: nat)
    requires (forall p <- a :: Allowed(p)) && Allowed(cp)
    ensures EncodeAll(a + [cp]) == EncodeAll(a) + Encode(cp)
  {
    if a == [] {
      assert [cp][1..] == [] && a + [cp] == [cp];
    } else {
      assert (a + [cp])[1..] == a[1..] + [cp];
      EncodeAllAppend(a[1..], cp);
    }
  }

  /** If `text` is an encoding and `done` is encoded by a prefix of it, then whatever follows
      that prefix starts with an encoded value. */
  lemma {:induction false} EncodingGoesOn(text: seq<byte>, cps: seq<nat>, done: seq<nat>)
    requires (forall p <- cps :: Allowed(p)) && (forall p <- done :: Allowed(p))
    requires EncodeAll(cps) == text && EncodeAll(done) < text
    ensures exists p :: Allowed(p) && Encode(p) <= text[|EncodeAll(done)|..]
  {
    hide Encode, Allowed;
    assert cps != [];
    if done == [] {
      assert text[0..] == text && Encode(cps[0]) <= text;
    } else {
      EncodingIsUnique(text, cps[0], done[0]);
      var n := |Encode(cps[0])|;
      assert text[n..] == EncodeAll(cps[1..]);
      assert EncodeAll(done)[n..] == EncodeAll(done[1..]);
      EncodingGoesOn(text[n..], cps[1..], done[1..]);
      assert text[n..][|EncodeAll(done[1..])|..] == text[|EncodeAll(done)|..];
    }
  }

  /** A command is accepted exactly when it has 1 to 2047 bytes and is the UTF-8 encoding of
      a sequence of allowed Unicode scalar values. */
  method ValidCommand(text: seq<byte>) returns (ok: bool)
    ensures ok <==>
              && 1 <= |text| <= MAX_COMMAND
              && exists cps: seq<nat> :: (forall cp <- cps :: Allowed(cp)) && EncodeAll(cps) == text
  {
    if text == [] || |text| > MAX_COMMAND {
      return false;
    }
    var i := 0;
    ghost var done: seq<nat> := [];
    while i < |text|
      invariant i <= |text|
      invariant (forall cp <- done :: Allowed(cp)) && EncodeAll(done) == text[..i]
    {
      var good, next, cp := TakeScalar(text, i);
      if !good {
        forall cps: seq<nat> | (forall cp <- cps :: Allowed(cp)) && EncodeAll(cps) == text ensures false {
          EncodingGoesOn(text, cps, done);
        }
        return false;
      }
      EncodeAllAppend(done, cp);
      assert text[..next] == text[..i] + text[i..next];
      done, i := done + [cp], next;
    }
    assert text[..i] == text;
    ok := true;
  }
}
