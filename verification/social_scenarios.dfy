/**
 * The four scenarios the social-engineering page offers, with their choices
 * and which of those are correct. Titles, descriptions, choice labels,
 * explanations, consequences, red flags and learning points are display text
 * and are not kept.
 */
module SocialScenarios {
  import opened SocialEngineering

  function PhishingEmail(): Scenario {
    Scenario("phishing-email", Email, [
      Choice("click-link", false),
      Choice("forward-colleagues", false),
      Choice("contact-it", true),
      Choice("ignore-email", false)
    ])
  }

  function PhonePretexting(): Scenario {
    Scenario("phone-pretexting", Phone, [
      Choice("provide-info", false),
      Choice("hang-up-call-bank", true),
      Choice("ask-callback", false),
      Choice("partial-info", false)
    ])
  }

  function PhysicalTailgating(): Scenario {
    Scenario("physical-tailgating", Physical, [
      Choice("let-them-in", false),
      Choice("ask-for-badge", true),
      Choice("escort-to-reception", true),
      Choice("call-sarah", true)
    ])
  }

  function SocialMediaRecon(): Scenario {
    Scenario("social-media-recon", SocialMedia, [
      Choice("accept-and-meet", false),
      Choice("verify-with-hr", true),
      Choice("accept-but-no-meeting", false),
      Choice("ignore-request", false)
    ])
  }

  function Catalog(): seq<Scenario> {
    [PhishingEmail(), PhonePretexting(), PhysicalTailgating(), SocialMediaRecon()]
  }

  /** The choice ids within each scenario are distinct. */
  lemma IdsDistinct()
    ensures ChoiceIdsUnique(PhishingEmail().choices)
    ensures ChoiceIdsUnique(PhonePretexting().choices)
    ensures ChoiceIdsUnique(PhysicalTailgating().choices)
    ensures ChoiceIdsUnique(SocialMediaRecon().choices)
  {
    FourDistinct(PhishingEmail().choices);
    FourDistinct(PhonePretexting().choices);
    FourDistinct(PhysicalTailgating().choices);
    FourDistinct(SocialMediaRecon().choices);
  }

  /** Four choices have distinct ids when their six pairs do. */
  lemma FourDistinct(c: seq<Choice>)
    requires |c| == 4
    requires c[0].id != c[1].id && c[0].id != c[2].id && c[0].id != c[3].id
    requires c[1].id != c[2].id && c[1].id != c[3].id && c[2].id != c[3].id
    ensures ChoiceIdsUnique(c)
  {
  }

  /** Each scenario has exactly one correct choice, except tailgating, which has three. */
  lemma CorrectCounts()
    ensures CorrectCount(PhishingEmail().choices) == 1
    ensures CorrectCount(PhonePretexting().choices) == 1
    ensures CorrectCount(PhysicalTailgating().choices) == 3
    ensures CorrectCount(SocialMediaRecon().choices) == 1
  {
  }

  /** Every scenario is well formed: distinct choice ids and at least one correct choice. */
  lemma CatalogWellFormed()
    ensures forall i :: 0 <= i < |Catalog()| ==> WellFormed(Catalog()[i])
  {
    IdsDistinct();
    CorrectCounts();
    forall i | 0 <= i < |Catalog()| ensures WellFormed(Catalog()[i]) {
      if i == 0 {
        assert Catalog()[i] == PhishingEmail();
      } else if i == 1 {
        assert Catalog()[i] == PhonePretexting();
      } else if i == 2 {
        assert Catalog()[i] == PhysicalTailgating();
      } else {
        assert Catalog()[i] == SocialMediaRecon();
      }
    }
  }

  /** The scenario ids are distinct, so there are four scenarios to complete. */
  lemma FourToComplete()
    ensures |Ids(Catalog())| == 4
  {
    var c := Catalog();
    assert c[1..][1..][1..][1..] == [];
    assert Ids(c[1..][1..][1..]) == {"social-media-recon"};
    assert Ids(c[1..][1..]) == {"physical-tailgating", "social-media-recon"};
    assert Ids(c[1..]) == {"phone-pretexting", "physical-tailgating", "social-media-recon"};
    assert Ids(c) == {"phishing-email", "phone-pretexting", "physical-tailgating", "social-media-recon"};
  }

  /** On the page itself: contacting IT, trying again and contacting IT again scores 2 with one scenario completed. */
  lemma RetryOnPhishing()
    ensures var r := Run(Catalog(), Initial, [Open(PhishingEmail()), Pick("contact-it"), TryAgain, Pick("contact-it")]);
            r.score == 2 && |r.completed| == 1 && CorrectPercent(r) == 200
  {
    IdsDistinct();
    assert PhishingEmail().choices[2].id == "contact-it";
    RetryScoresTwice(Catalog(), PhishingEmail(), 2);
  }
}
