/**
 * The rule-based reply generator: the input is lower-cased, then a fixed
 * chain of substring tests picks one of six canned replies, first hit wins.
 */
module Bot {

  const Greeting := "Hello! How can I help you today?"
  const HelpReply := "I am a support bot. You can ask me about our services, pricing, or contact support."
  const PricingReply := "Our basic plan starts at $10/month. Professional plan is $30/month."
  const ContactReply := "You can reach us at support@example.com."
  const Farewell := "Goodbye! Have a nice day."
  const Fallback := "I'm sorry, I didn't understand that. Could you please rephrase?"

  /** The six replies the generator can give. */
  const Replies: set<string> := {Greeting, HelpReply, PricingReply, ContactReply, Farewell, Fallback}

  /** ASCII lower-casing of one character (Python's `str.lower` restricted to ASCII). */
  function LowerChar(c: char): (d: char)
    ensures 'A' <= c <= 'Z' ==> 'a' <= d <= 'z' && d as int - 'a' as int == c as int - 'A' as int
    ensures !('A' <= c <= 'Z') ==> d == c
    ensures !('A' <= d <= 'Z')
  {
    if 'A' <= c <= 'Z' then (c as int - 'A' as int + 'a' as int) as char else c
  }

  /** `message.lower()`, applied character by character. */
  function Lower(s: string): (r: string)
    ensures |r| == |s|
    ensures forall i :: 0 <= i < |r| ==> !('A' <= r[i] <= 'Z')
    ensures forall i :: 0 <= i < |s| && !('A' <= s[i] <= 'Z') ==> r[i] == s[i]
    ensures forall i :: 0 <= i < |s| && 'A' <= s[i] <= 'Z' ==> r[i] as int - 'a' as int == s[i] as int - 'A' as int
  {
    seq(|s|, i requires 0 <= i < |s| => LowerChar(s[i]))
  }

  /** `w` occurs in `s` at offset `i`. */
  ghost predicate OccursAt(s: string, w: string, i: int)
  {
    0 <= i && i + |w| <= |s| && s[i..i + |w|] == w
  }

  /** The meaning of Python's `w in s` on strings: some offset holds `w`. */
  ghost predicate Occurs(s: string, w: string)
  {
    exists i :: OccursAt(s, w, i)
  }

  /** The substring test `w in s`, by scanning the offsets left to right. */
  function Contains(s: string, w: string): bool
    decreases |s|
  {
    if |w| > |s| then false
    else if s[..|w|] == w then true
    else Contains(s[1..], w)
  }

  /** `get_response`: the ordered keyword chain over the lower-cased input. */
  function GetResponse(message: string): (r: string)
    ensures r in Replies
  {
    var m := Lower(message);
    if Contains(m, "hello") || Contains(m, "hi") then Greeting
    else if Contains(m, "help") then HelpReply
    else if Contains(m, "price") || Contains(m, "pricing") then PricingReply
    else if Contains(m, "contact") then ContactReply
    else if Contains(m, "bye") then Farewell
    else Fallback
  }

  /** The scan agrees with the offset definition of a substring. */
  lemma {:induction false} ContainsIffOccurs(s: string, w: string)
    ensures Contains(s, w) <==> Occurs(s, w)
    decreases |s|
  {
    if |w| > |s| {
    } else if s[..|w|] == w {
      assert OccursAt(s, w, 0);
    } else {
      ContainsIffOccurs(s[1..], w);
      if Occurs(s[1..], w) {
        var i :| OccursAt(s[1..], w, i);
        forall j | 0 <= j < |w| ensures s[i + 1..i + 1 + |w|][j] == w[j] {
          assert s[1..][i..i + |w|][j] == w[j];
        }
        assert OccursAt(s, w, i + 1);
      }
      if Occurs(s, w) {
        var i :| OccursAt(s, w, i);
        assert i != 0;
        assert s[1..][i - 1..i - 1 + |w|] == s[i..i + |w|];
        assert OccursAt(s[1..], w, i - 1);
      }
    }
  }

  /** Lower-casing a second time changes nothing. */
  lemma LowerIdempotent(s: string)
    ensures Lower(Lower(s)) == Lower(s)
  {
  }

  /** Matching is case-insensitive: inputs equal up to case get the same reply. */
  lemma CaseInsensitive(s: string, t: string)
    requires Lower(s) == Lower(t)
    ensures GetResponse(s) == GetResponse(t)
  {
  }

  /** Lower-casing the input first never changes the reply. */
  lemma ResponseOfLowered(s: string)
    ensures GetResponse(Lower(s)) == GetResponse(s)
  {
    LowerIdempotent(s);
    CaseInsensitive(Lower(s), s);
  }

  /** The greeting wins whenever "hello" or "hi" occurs, even inside a word. */
  lemma GreetingIff(s: string)
    ensures GetResponse(s) == Greeting <==> Occurs(Lower(s), "hello") || Occurs(Lower(s), "hi")
  {
    ContainsIffOccurs(Lower(s), "hello");
    ContainsIffOccurs(Lower(s), "hi");
  }

  /** The help reply is given exactly when "help" occurs and no greeting keyword does. */
  lemma HelpIff(s: string)
    ensures GetResponse(s) == HelpReply <==>
      var m := Lower(s);
      Occurs(m, "help") && !Occurs(m, "hello") && !Occurs(m, "hi")
  {
    var m := Lower(s);
    ContainsIffOccurs(m, "hello");
    ContainsIffOccurs(m, "hi");
    ContainsIffOccurs(m, "help");
  }

  /** The pricing reply needs "price" or "pricing" and none of the earlier keywords. */
  lemma PricingIff(s: string)
    ensures GetResponse(s) == PricingReply <==>
      var m := Lower(s);
      (Occurs(m, "price") || Occurs(m, "pricing")) &&
      !Occurs(m, "hello") && !Occurs(m, "hi") && !Occurs(m, "help")
  {
    var m := Lower(s);
    ContainsIffOccurs(m, "hello");
    ContainsIffOccurs(m, "hi");
    ContainsIffOccurs(m, "help");
    ContainsIffOccurs(m, "price");
    ContainsIffOccurs(m, "pricing");
  }

  /** The contact reply needs "contact" and none of the earlier keywords. */
  lemma ContactIff(s: string)
    ensures GetResponse(s) == ContactReply <==>
      var m := Lower(s);
      Occurs(m, "contact") &&
      !Occurs(m, "hello") && !Occurs(m, "hi") && !Occurs(m, "help") &&
      !Occurs(m, "price") && !Occurs(m, "pricing")
  {
    var m := Lower(s);
    ContainsIffOccurs(m, "hello");
    ContainsIffOccurs(m, "hi");
    ContainsIffOccurs(m, "help");
    ContainsIffOccurs(m, "price");
    ContainsIffOccurs(m, "pricing");
    ContainsIffOccurs(m, "contact");
  }

  /** The farewell needs "bye" and none of the earlier keywords. */
  lemma FarewellIff(s: string)
    ensures GetResponse(s) == Farewell <==>
      var m := Lower(s);
      Occurs(m, "bye") &&
      !Occurs(m, "hello") && !Occurs(m, "hi") && !Occurs(m, "help") &&
      !Occurs(m, "price") && !Occurs(m, "pricing") && !Occurs(m, "contact")
  {
    var m := Lower(s);
    ContainsIffOccurs(m, "hello");
    ContainsIffOccurs(m, "hi");
    ContainsIffOccurs(m, "help");
    ContainsIffOccurs(m, "price");
    ContainsIffOccurs(m, "pricing");
    ContainsIffOccurs(m, "contact");
    ContainsIffOccurs(m, "bye");
  }

  /** The fallback is given exactly when no keyword occurs in the lower-cased input. */
  lemma FallbackIff(s: string)
    ensures GetResponse(s) == Fallback <==>
      var m := Lower(s);
      !Occurs(m, "hello") && !Occurs(m, "hi") && !Occurs(m, "help") &&
      !Occurs(m, "price") && !Occurs(m, "pricing") && !Occurs(m, "contact") && !Occurs(m, "bye")
  {
    var m := Lower(s);
    ContainsIffOccurs(m, "hello");
    ContainsIffOccurs(m, "hi");
    ContainsIffOccurs(m, "help");
    ContainsIffOccurs(m, "price");
    ContainsIffOccurs(m, "pricing");
    ContainsIffOccurs(m, "contact");
    ContainsIffOccurs(m, "bye");
  }

  /** A keyword holding a letter the text lacks does not occur in it. */
  lemma {:induction false} MissingLetter(s: string, w: string, c: char)
    requires c in w && c !in s
    ensures !Contains(s, w)
  {
    ContainsIffOccurs(s, w);
  }

  /** Greetings in any letter case. */
  lemma GreetingSamples()
    ensures GetResponse("Hello there") == Greeting
    ensures GetResponse("HELLO") == Greeting
    ensures GetResponse("say hi") == Greeting
  {
    assert Lower("Hello there")[..5] == "hello";
    assert Lower("HELLO")[..5] == "hello";
    assert Lower("say hi")[4..][..2] == "hi";
  }

  /** The substring quirk: "hi" inside "this" or "shipping" outranks every later keyword. */
  lemma SubstringQuirk()
    ensures GetResponse("is this free") == Greeting
    ensures GetResponse("help with shipping") == Greeting
  {
    assert Lower("is this free")[4..][..2] == "hi";
    assert OccursAt(Lower("help with shipping"), "hi", 11);
    GreetingIff("help with shipping");
  }

  /** "hi" does not occur in the sample question: both of its 'h's are followed by other letters. */
  lemma NoHiInPriceQuestion()
    ensures !Contains("what is the price?", "hi")
  {
    var m := "what is the price?";
    forall i | 0 <= i && i + 2 <= |m|
      ensures !OccursAt(m, "hi", i)
    {
      assert m[i..i + 2][0] == m[i] && m[i..i + 2][1] == m[i + 1];
      assert i == 1 || i == 9 || m[i] != 'h';
    }
    ContainsIffOccurs(m, "hi");
  }

  /** "price" occurs in the sample question, at offset 12. */
  lemma PriceInPriceQuestion()
    ensures Contains("what is the price?", "price")
  {
    var m := "what is the price?";
    var w := m[12..17];
    assert w[0] == 'p' && w[1] == 'r' && w[2] == 'i' && w[3] == 'c' && w[4] == 'e';
    assert w == "price";
    assert OccursAt(m, "price", 12);
    ContainsIffOccurs(m, "price");
  }

  /** A question about the price gets the pricing reply. */
  lemma PricingSample()
    ensures GetResponse("what is the price?") == PricingReply
  {
    var m := Lower("what is the price?");
    assert m == "what is the price?";
    MissingLetter(m, "hello", 'l');
    MissingLetter(m, "help", 'l');
    NoHiInPriceQuestion();
    PriceInPriceQuestion();
  }

  /** Text with no keyword gets the fallback. */
  lemma FallbackSample()
    ensures GetResponse("xyz") == Fallback
  {
    var m := Lower("xyz");
    assert m == "xyz";
    MissingLetter(m, "hi", 'h');
    MissingLetter(m, "help", 'h');
    MissingLetter(m, "price", 'p');
    MissingLetter(m, "pricing", 'p');
    MissingLetter(m, "bye", 'b');
  }
}
