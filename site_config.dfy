/** The static site configuration that the page logic reads (client/src/config.ts). */
module SiteConfig {
  const BrandName: string := "Scalaris"

  /** The destination number as a person would write it, with its leading '+'. */
  const WhatsappNumber: string := "+971504486615"

  /** The ids of the navigation entries, in display order. */
  const NavIds: seq<string> := ["home", "story", "expertise", "work", "team", "testimonials", "contact"]
}
