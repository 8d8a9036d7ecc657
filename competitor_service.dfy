/**
 * Competitor analysis helpers: the 30000-character cut of the crawled
 * markdown, and the JSON text taken from the analysis reply.
 */
module CompetitorService {
  import opened Text
  import opened Wrappers
  import GeminiService

  const MaxScrapedChars: nat := 30000

  /**
   * `scrape_website`, after the crawl: `markdown[:30000]`. The crawl itself is a
   * foreign call; its markdown is the argument.
   */
  function ScrapeWebsite(markdown: string): (r: string)
    ensures StartsWith(markdown, r)
    ensures |r| <= 30000
    ensures |markdown| <= 30000 ==> r == markdown
    ensures |markdown| > 30000 ==> |r| == 30000
  {
    Truncate(markdown, MaxScrapedChars)
  }

  /**
   * `analyze_competitor`: asks the model about the company and its scraped
   * content and cleans the JSON text out of the reply exactly as
   * `parse_json_response` does. `generate` stands for building the prompt from
   * the two values and calling the model.
   */
  function AnalyzeCompetitor(companyName: string, scrapedContent: string,
                             generate: (string, string) -> Result<GeminiService.GenerateResponse, string>): (r: Result<string, string>)
    ensures generate(companyName, scrapedContent).Failure? ==> r.Failure?
    ensures r.Success? ==>
              var text := GeminiService.FirstCandidateText(generate(companyName, scrapedContent).value);
              text.Some? && r.value == GeminiService.ParseJsonText(text.value)
    ensures generate(companyName, scrapedContent).Success? && GeminiService.FirstCandidateText(generate(companyName, scrapedContent).value).Some? ==> r.Success?
  {
    GeminiService.AnalysisJsonText(generate(companyName, scrapedContent))
  }

  /** A reply that wraps `body` in a "```json" fence yields `body`, stripped. */
  lemma AnalyzeCompetitorFenced(companyName: string, scrapedContent: string,
                                generate: (string, string) -> Result<GeminiService.GenerateResponse, string>,
                                pre: string, body: string, post: string)
    requires AllSpace(pre) && AllSpace(post)
    requires generate(companyName, scrapedContent) ==
               Success(GeminiService.GenerateResponse([GeminiService.Candidate(GeminiService.Content(
                 [GeminiService.Part(pre + GeminiService.JsonOpenFence + body + GeminiService.CloseFence + post)]))]))
    ensures AnalyzeCompetitor(companyName, scrapedContent, generate) == Success(Strip(body))
  {
    GeminiService.AnalysisJsonTextFenced(pre, body, post);
  }
}
