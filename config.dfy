/**
 * The fixed lists of the reporter's configuration (config.py): the search
 * keywords fed to the news search, the regional keywords that exclude a
 * title, and the publisher allow-list.
 */
module Config {

  /** One news search is run per keyword, in this order. */
  const SearchKeywords: seq<string> := [
    "Unfall", "Polizei", "Feuer", "Brand", "Diebstahl", "Raub", "Warnung",
    "Sicherheit", "Verbrechen", "Vermisst", "Lawine", "Unwetter",
    "Demonstration", "Streik", "Straßensperre", "ÖBB", "Wiener Linien"
  ]

  /** A title mentioning any of these (Germany, Switzerland) is dropped. */
  const ExcludedKeywords: seq<string> := [
    "Deutschland", "Berlin", "München", "Hamburg", "Frankfurt", "Köln",
    "Schweiz", "Zürich", "Bern", "Genf", "Basel",
    "Bundesrepublik", "DB", "Deutsche Bahn",
    "Bayern", "Sachsen", "NRW"
  ]

  /** Only news from these publishers is kept. */
  const AllowedSources: seq<string> := [
    "ORF", "Der Standard", "Die Presse", "Kurier", "Kronen Zeitung",
    "Heute", "OE24", "Puls 24", "Salzburger Nachrichten", "Wiener Zeitung",
    "Kleine Zeitung", "Tiroler Tageszeitung", "OÖN", "Oberösterreichische Nachrichten",
    "Vorarlberger Nachrichten", "NÖN", "Niederösterreichische Nachrichten",
    "BVZ", "Burgenländische Volkszeitung", "MeinBezirk", "MeinBezirk.at", "Vol.at",
    "5min.at", "Vienna.at",
    "Polizei", "LPD", "Landespolizeidirektion", "BMI", "Bundesministerium für Inneres",
    "Stadt Wien", "APA-OTS", "APA", "ÖAMTC", "ARBÖ", "Asfinag"
  ]
}
