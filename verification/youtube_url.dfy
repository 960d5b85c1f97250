/** `is_valid_youtube_url`: a link is accepted when it mentions one of four
    YouTube domain names anywhere in its text. */
module YoutubeUrl {
  import opened Text

  /** The domain names the bot looks for, in the order it tries them. */
  const Domains: seq<string> := ["youtube.com", "youtu.be", "www.youtube.com", "m.youtube.com"]

  /** `any(domain in url for domain in youtube_domains)`. */
  predicate IsValidYoutubeUrl(url: string) {
    exists i | 0 <= i < |Domains| :: Contains(url, Domains[i])
  }

  /** The two longer domains contain `youtube.com`, so only two of the four
      names matter: a link is accepted exactly when it contains `youtube.com`
      or `youtu.be`. */
  lemma ValidIffCoreDomain(url: string)
    ensures IsValidYoutubeUrl(url) <==> Contains(url, "youtube.com") || Contains(url, "youtu.be")
  {
    assert OccursAt("www.youtube.com", "youtube.com", 4);
    assert OccursAt("m.youtube.com", "youtube.com", 2);
    if Contains(url, "www.youtube.com") {
      ContainsTransitive(url, "www.youtube.com", "youtube.com");
    }
    if Contains(url, "m.youtube.com") {
      ContainsTransitive(url, "m.youtube.com", "youtube.com");
    }
    if Contains(url, "youtube.com") {
      assert Contains(url, Domains[0]);
    }
    if Contains(url, "youtu.be") {
      assert Contains(url, Domains[1]);
    }
  }

  /** The check is applied to the stripped message text; stripping never
      changes the verdict, since no domain begins or ends with whitespace. */
  lemma ValidityIgnoresSurroundingSpace(text: string)
    ensures IsValidYoutubeUrl(Strip(text)) <==> IsValidYoutubeUrl(text)
  {
    StripKeepsOccurrences(text, "youtube.com");
    StripKeepsOccurrences(text, "youtu.be");
    ValidIffCoreDomain(text);
    ValidIffCoreDomain(Strip(text));
  }

  /** The short-link form is accepted. */
  lemma ShortLinkAccepted()
    ensures IsValidYoutubeUrl("https://youtu.be/dQw4w9WgXcQ")
  {
    var link := "https://youtu.be/dQw4w9WgXcQ";
    assert link[8..16] == "youtu.be";
    assert OccursAt(link, Domains[1], 8);
  }

  /** A link to another site is refused. */
  lemma OtherSiteRefused()
    ensures !IsValidYoutubeUrl("https://vimeo.com/76979871")
  {
    ValidIffCoreDomain("https://vimeo.com/76979871");
    NoYouBefore("https://vimeo.com/76979871");
  }

  /** A text without the letter `y` contains neither core domain. */
  lemma NoYouBefore(s: string)
    requires 'y' !in s
    ensures !Contains(s, "youtube.com") && !Contains(s, "youtu.be")
  {
    forall i | 0 <= i <= |s| - |"youtube.com"|
      ensures !OccursAt(s, "youtube.com", i)
    {
      assert s[i] != 'y';
    }
    forall i | 0 <= i <= |s| - |"youtu.be"|
      ensures !OccursAt(s, "youtu.be", i)
    {
      assert s[i] != 'y';
    }
  }
}
