/** The reply drafted for a student (`generate_email_to_student`): a fixed
    letter that quotes the stripped query and names the contact address. */
module Reply {
  import opened Wrappers
  import opened Text

  /** How an f-string renders an optional text: a missing one prints as "None". */
  function Show(text: Option<string>): (r: string)
    ensures text.Some? ==> r == text.value
    ensures text.None? ==> r == "None"
  {
    match text
    case None => "None"
    case Some(t) => t
  }

  /** The fixed parts of the letter, in order. */
  const Greeting: string := "\nDear Student,\n\nThank you for reaching out with your concern:\n\n> "
  const Referral: string := "\n\nAfter reviewing your query, it is recommended that you contact the respective department at: "
  const Closing: string := "\n\nFeel free to let me know if you need any further help.\n\nRegards,  \nMentor\n"

  /** The letter quoting `body` and naming `address`: the greeting comes
      first, then the quoted text, the referral, the address and the closing. */
  function Letter(body: string, address: string): (r: string)
    ensures OccursAt(r, Greeting, 0)
    ensures OccursAt(r, body, |Greeting|)
    ensures OccursAt(r, Referral, |Greeting| + |body|)
    ensures OccursAt(r, address, |Greeting| + |body| + |Referral|)
    ensures OccursAt(r, Closing, |r| - |Closing|)
    ensures |r| == |Greeting| + |body| + |Referral| + |address| + |Closing|
  {
    PartsOfFive(Greeting, body, Referral, address, Closing);
    Greeting + body + Referral + address + Closing
  }

  /** `generate_email_to_student(query, category, email)`: the letter for the
      stripped query, pointing at `email`. It is defined for every query and
      address, always quotes the stripped query and names the address as
      given; the category is accepted but plays no part in the text. */
  function DraftReply(query: string, category: string, email: Option<string>): (r: string)
    ensures Contains(r, Strip(query))
    ensures Contains(r, Show(email))
  {
    var body, address := Strip(query), Show(email);
    var r := Letter(body, address);
    assert OccursAt(r, body, |Greeting|);
    assert OccursAt(r, address, |Greeting| + |body| + |Referral|);
    r
  }

  /** Where each part of a five-part concatenation sits. */
  lemma PartsOfFive(a: string, b: string, c: string, d: string, e: string)
    ensures OccursAt(a + b + c + d + e, a, 0)
    ensures OccursAt(a + b + c + d + e, b, |a|)
    ensures OccursAt(a + b + c + d + e, c, |a| + |b|)
    ensures OccursAt(a + b + c + d + e, d, |a| + |b| + |c|)
    ensures OccursAt(a + b + c + d + e, e, |a + b + c + d + e| - |e|)
  {
    var r := a + b + c + d + e;
    assert r[..|a|] == a;
    assert r[|a|..|a| + |b|] == b;
    assert r[|a| + |b|..|a| + |b| + |c|] == c;
    assert r[|a| + |b| + |c|..|a| + |b| + |c| + |d|] == d;
    assert r[|r| - |e|..] == e;
  }

  /** Two letters with quoted texts of the same length are equal only when
      they quote the same text and name the same address: both can be read
      back from the letter. */
  lemma LetterDeterminesParts(body: string, address: string, body': string, address': string)
    requires |body| == |body'|
    requires Letter(body, address) == Letter(body', address')
    ensures body == body' && address == address'
  {
    var r := Letter(body, address);
    assert body == r[|Greeting|..|Greeting| + |body|] == body';
    assert |address| == |address'|;
    var at := |Greeting| + |body| + |Referral|;
    assert address == r[at..at + |address|] == address';
  }
}
