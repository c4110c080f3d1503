/*
 * One row of the weekly fuel-price survey. The price columns arrive as text
 * with a decimal comma (Price = string) and are used as numbers once
 * converted (Price = real).
 */
module Survey {
  import opened Calendar

  /**
   * ESTADO, MUNICÍPIO, REGIÃO, PRODUTO, DATA INICIAL, DATA FINAL, the
   * derived ANO_MES label, PREÇO MÉDIO / MÍNIMO / MÁXIMO REVENDA and
   * NÚMERO DE POSTOS PESQUISADOS.
   */
  datatype Row<Price> = Row(
    state: string,
    city: string,
    region: string,
    product: string,
    start: Date,
    end: Date,
    yearMonth: string,
    avgPrice: Price,
    minPrice: Price,
    maxPrice: Price,
    stations: int)
}
